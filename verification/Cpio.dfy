/** The ODC CPIO archive: the sender's builder, the lenient reader, and the receiver's completeness gate. */
module Cpio {
  import opened Wrappers
  import opened ByteSeqs
  import opened Text

  const HDR_LEN: nat := 76
  const MAGIC: seq<Byte> := [48, 55, 48, 55, 48, 55]                            // 070707
  const TRAILER: seq<Byte> := [84, 82, 65, 73, 76, 69, 82, 33, 33, 33]          // TRAILER!!!
  const DOT: seq<Byte> := [46]
  const DOT_DOT: seq<Byte> := [46, 46]
  const REGULAR_MODE: nat := 33188                                              // 0o100644
  const DIRECTORY_MODE: nat := 16877                                            // 0o040755
  const MAX_NAME: nat := 4096

  // ---- Headers ----

  /** A 76-octet header, wider only when a size does not fit its field. */
  function Header(ino: nat, nameSize: nat, fileSize: nat, mode: nat): seq<Byte> {
    MAGIC + ZeroDigits(6) + Padded(ino % 0x4_0000, 8, 6)                             // magic, dev, ino
    + Padded(mode % 0x4_0000, 8, 6)
    + (ZeroDigits(12) + Padded(1, 8, 6) + ZeroDigits(6) + ZeroDigits(11))  // uid, gid, nlink, rdev, mtime
    + Padded(nameSize, 8, 6)
    + Padded(fileSize, 8, 11)
  }

  predicate IsPad(b: Byte) {
    b in [0, 9, 10, 12, 13, 32]
  }

  function TrimPad(s: seq<Byte>): (t: seq<Byte>)
    ensures t != [] ==> !IsPad(t[0]) && !IsPad(t[|t| - 1])
  {
    if s != [] && IsPad(s[0]) then TrimPad(s[1..])
    else if s != [] && IsPad(s[|s| - 1]) then TrimPad(s[..|s| - 1])
    else s
  }

  /** The reader's field parser: padding is tolerated, anything unreadable is zero. */
  function ParseOctal(field: seq<Byte>): nat {
    if !IsUtf8(field) then 0
    else match FromStrRadix(TrimPad(field), 8)
      case None => 0
      case Some(n) => n
  }

  /** The gate's field parser. */
  function StrictOctal(field: seq<Byte>): Option<nat> {
    if IsUtf8(field) then FromStrRadix(field, 8) else None
  }

  lemma StrictIsLenient(field: seq<Byte>, n: nat)
    requires StrictOctal(field) == Some(n)
    ensures ParseOctal(field) == n
  {
    hide IsUtf8, Value;
    var digits := if field[0] == 43 then field[1..] else field;
    assert DigitValue(digits[0]) < 8 && DigitValue(digits[|digits| - 1]) < 8;
    assert !IsPad(field[0]) && !IsPad(field[|field| - 1]);
    assert TrimPad(field) == field;
  }

  lemma {:induction false} OctalBound(digits: seq<Byte>)
    requires AreDigits(digits, 8)
    ensures Value(digits, 8) < Power(8, |digits|)
    decreases |digits|
  {
    if digits != [] {
      OctalBound(digits[..|digits| - 1]);
    }
  }

  lemma {:induction false} PowerGrows(k: nat, n: nat)
    requires k <= n
    ensures Power(8, k) <= Power(8, n)
    decreases n
  {
    if k < n {
      PowerGrows(k, n - 1);
    }
  }

  /** The gate reads a field exactly when it is all octal digits, at least one, behind at most a plus sign. */
  lemma StrictIff(field: seq<Byte>)
    requires |field| <= 11
    ensures var digits := if field != [] && field[0] == 43 then field[1..] else field;
            StrictOctal(field).Some? <==> digits != [] && forall i :: 0 <= i < |digits| ==> 48 <= digits[i] <= 55
  {
    hide IsUtf8, Value;
    var digits := if field != [] && field[0] == 43 then field[1..] else field;
    if StrictOctal(field).Some? {
      assert forall i :: 0 <= i < |digits| ==> DigitValue(digits[i]) < 8;
    }
    if digits != [] && forall i :: 0 <= i < |digits| ==> 48 <= digits[i] <= 55 {
      assert forall i :: 0 < i < |field| && field[0] == 43 ==> field[i] == digits[i - 1];
      AsciiIsUtf8(field);
      OctalBound(digits);
      PowerGrows(|digits|, 11);
      PowersOfEight();
    }
  }

  lemma {:induction false} TrimPadOf(front: seq<Byte>, core: seq<Byte>, back: seq<Byte>)
    requires forall i :: 0 <= i < |front| ==> IsPad(front[i])
    requires forall i :: 0 <= i < |back| ==> IsPad(back[i])
    requires core != [] && !IsPad(core[0]) && !IsPad(core[|core| - 1])
    ensures TrimPad(front + core + back) == core
    decreases |front| + |back|
  {
    hide IsPad;
    var s := front + core + back;
    if front != [] {
      assert s[0] == front[0] && s[1..] == front[1..] + core + back;
      TrimPadOf(front[1..], core, back);
    } else if back != [] {
      assert s[0] == core[0] && s[|s| - 1] == back[|back| - 1];
      assert s[..|s| - 1] == front + core + back[..|back| - 1];
      TrimPadOf(front, core, back[..|back| - 1]);
    } else {
      assert s == core;
    }
  }

  /** White space and NULs around the digits do not matter to the reader. */
  lemma PaddingIsTolerated(front: seq<Byte>, digits: seq<Byte>, back: seq<Byte>, n: nat)
    requires forall i :: 0 <= i < |front| ==> front[i] in {0, 9, 10, 12, 13, 32}
    requires forall i :: 0 <= i < |back| ==> back[i] in {0, 9, 10, 12, 13, 32}
    requires StrictOctal(digits) == Some(n)
    ensures ParseOctal(front + digits + back) == n
  {
    hide IsUtf8, Value;
    var d := if digits[0] == 43 then digits[1..] else digits;
    assert DigitValue(d[0]) < 8 && DigitValue(d[|d| - 1]) < 8;
    TrimPadOf(front, digits, back);
    AsciiIsUtf8(front);
    AsciiIsUtf8(back);
    Utf8Concat(front, digits);
    Utf8Concat(front + digits, back);
  }

  lemma StrictReadsPadded(n: nat, width: nat)
    requires n <= USIZE_MAX
    ensures StrictOctal(Padded(n, 8, width)) == Some(n)
  {
    PaddedParses(n, 8, width);
  }

  function HeaderMode(h: seq<Byte>): nat
    requires |h| == HDR_LEN
  {
    ParseOctal(h[18..24])
  }

  function NameField(h: seq<Byte>): seq<Byte>
    requires |h| == HDR_LEN
  {
    h[59..65]
  }

  function SizeField(h: seq<Byte>): seq<Byte>
    requires |h| == HDR_LEN
  {
    h[65..76]
  }

  lemma FiveParts(a: seq<Byte>, b: seq<Byte>, c: seq<Byte>, d: seq<Byte>, e: seq<Byte>)
    requires |a| == 18 && |b| == 6 && |c| == 35 && |d| == 6 && |e| == 11
    ensures var h := a + b + c + d + e;
            |h| == 76 && h[..18] == a && h[18..24] == b && h[59..65] == d && h[65..76] == e
  {
  }

  lemma PowersOfEight()
    ensures Power(8, 6) == 0x4_0000 && Power(8, 11) == 0x2_0000_0000
  {
    assert Power(8, 1) == 8 && Power(8, 2) == 64 && Power(8, 3) == 512 && Power(8, 4) == 4096;
    assert Power(8, 5) == 32768 && Power(8, 6) == 262144 && Power(8, 7) == 2097152 && Power(8, 8) == 16777216;
    assert Power(8, 9) == 134217728 && Power(8, 10) == 1073741824;
  }

  lemma HeaderFields(ino: nat, nameSize: nat, fileSize: nat, mode: nat)
    requires nameSize < 0x4_0000 && fileSize < 0x2_0000_0000 && mode < 0x4_0000
    ensures var h := Header(ino, nameSize, fileSize, mode);
            && |h| == HDR_LEN && h[..6] == MAGIC && HeaderMode(h) == mode
            && StrictOctal(NameField(h)) == Some(nameSize) && StrictOctal(SizeField(h)) == Some(fileSize)
  {
    hide Padded, StrictOctal, ParseOctal, Power;
    PowersOfEight();
    NumeralFits(ino % 0x4_0000, 8, 6);
    NumeralFits(mode, 8, 6);
    NumeralFits(1, 8, 6);
    NumeralFits(nameSize, 8, 6);
    NumeralFits(fileSize, 8, 11);
    var a := MAGIC + ZeroDigits(6) + Padded(ino % 0x4_0000, 8, 6);
    var c := ZeroDigits(12) + Padded(1, 8, 6) + ZeroDigits(6) + ZeroDigits(11);
    FiveParts(a, Padded(mode, 8, 6), c, Padded(nameSize, 8, 6), Padded(fileSize, 8, 11));
    assert Header(ino, nameSize, fileSize, mode)[..18] == a;
    assert a[..6] == MAGIC;
    StrictReadsPadded(nameSize, 6);
    StrictReadsPadded(fileSize, 11);
    StrictReadsPadded(mode, 6);
    StrictIsLenient(Padded(mode, 8, 6), mode);
  }

  /** The other fields: the inode number modulo its field, one link, and zeros. */
  lemma OtherFields(ino: nat, nameSize: nat, fileSize: nat, mode: nat)
    requires mode < 0x4_0000
    ensures var h := Header(ino, nameSize, fileSize, mode);
            && |h| >= 59 && h[6..12] == Octets("000000") && StrictOctal(h[12..18]) == Some(ino % 0x4_0000)
            && h[24..59] == Octets("00000000000000000100000000000000000")
  {
    hide StrictOctal, Power, Padded, Numeral;
    PowersOfEight();
    NumeralFits(ino % 0x4_0000, 8, 6);
    NumeralFits(mode, 8, 6);
    NumeralFits(1, 8, 6);
    StrictReadsPadded(ino % 0x4_0000, 6);
    OneLink();
    var a, b := Padded(ino % 0x4_0000, 8, 6), Padded(mode, 8, 6);
    var c := ZeroDigits(12) + Padded(1, 8, 6) + ZeroDigits(6) + ZeroDigits(11);
    var rest := Padded(nameSize, 8, 6) + Padded(fileSize, 8, 11);
    assert Header(ino, nameSize, fileSize, mode) == MAGIC + ZeroDigits(6) + a + b + c + rest;
    FrontFields(MAGIC, ZeroDigits(6), a, b, c, rest);
    assert ZeroDigits(6) == Octets("000000");
  }

  lemma OneLink()
    ensures ZeroDigits(12) + Padded(1, 8, 6) + ZeroDigits(6) + ZeroDigits(11)
            == Octets("00000000000000000100000000000000000")
  {
    assert Numeral(1, 8) == [49];
    assert Padded(1, 8, 6) == ZeroDigits(5) + [49];
  }

  lemma FrontFields(a: seq<Byte>, b: seq<Byte>, c: seq<Byte>, d: seq<Byte>, e: seq<Byte>, f: seq<Byte>)
    requires |a| == 6 && |b| == 6 && |c| == 6 && |d| == 6 && |e| == 35
    ensures var h := a + b + c + d + e + f; h[6..12] == b && h[12..18] == c && h[24..59] == e
  {
  }

  // ---- The lenient reader ----

  datatype Entry = Entry(name: seq<Byte>, data: seq<Byte>, mode: nat) {
    /** Directories, and the two directory names whatever their mode, are not delivered. */
    predicate IsDirectory() {
      mode / 0x1000 % 16 == 4 || name == DOT || name == DOT_DOT
    }
  }

  function TrimNuls(s: seq<Byte>): (t: seq<Byte>)
    ensures t <= s && (t != [] ==> t[|t| - 1] != 0)
    ensures forall i :: |t| <= i < |s| ==> s[i] == 0
  {
    if s != [] && s[|s| - 1] == 0 then TrimNuls(s[..|s| - 1]) else s
  }

  function EntryName(field: seq<Byte>): seq<Byte> {
    TrimNuls(if IsUtf8(field) then field else [])
  }

  /** A name is its field without the NULs at the end, and nothing when the field is not text. */
  lemma EntryNameIs(name: seq<Byte>, nuls: seq<Byte>)
    requires name != [] ==> name[|name| - 1] != 0
    requires forall i :: 0 <= i < |nuls| ==> nuls[i] == 0
    ensures EntryName(name + nuls) == if IsUtf8(name + nuls) then name else []
  {
    hide IsUtf8;
    TrimNulsOf(name, nuls);
  }

  function Keep(e: Entry): seq<Entry> {
    if e.IsDirectory() then [] else [e]
  }

  /** The header at the front of `data`, when there is room for one and it carries the magic. */
  predicate HasHeader(data: seq<Byte>) {
    |data| >= HDR_LEN && data[..6] == MAGIC
  }

  function ReadOdc(data: seq<Byte>): seq<Entry>
    decreases |data|
  {
    if !HasHeader(data) then []
    else
      var h := data[..HDR_LEN];
      var n, f := ParseOctal(NameField(h)), ParseOctal(SizeField(h));
      if n == 0 || HDR_LEN + n + f > |data| || EntryName(data[HDR_LEN..HDR_LEN + n]) == TRAILER then []
      else
        Keep(Entry(EntryName(data[HDR_LEN..HDR_LEN + n]), data[HDR_LEN + n..HDR_LEN + n + f], HeaderMode(h)))
        + ReadOdc(data[HDR_LEN + n + f..])
  }

  /** One step of the reader. */
  lemma ReadStep(data: seq<Byte>)
    ensures !HasHeader(data) ==> ReadOdc(data) == []
    ensures HasHeader(data) ==>
              var h := data[..HDR_LEN];
              var n, f := ParseOctal(NameField(h)), ParseOctal(SizeField(h));
              ReadOdc(data) ==
              if n == 0 || HDR_LEN + n + f > |data| || EntryName(data[HDR_LEN..HDR_LEN + n]) == TRAILER then []
              else Keep(Entry(EntryName(data[HDR_LEN..HDR_LEN + n]), data[HDR_LEN + n..HDR_LEN + n + f], HeaderMode(h)))
                   + ReadOdc(data[HDR_LEN + n + f..])
  {
    hide ParseOctal, EntryName, Keep, NameField, SizeField, HeaderMode;
  }

  /** One step of the reader over a member with the given pieces. */
  lemma ReadOdcMember(h: seq<Byte>, field: seq<Byte>, data: seq<Byte>, rest: seq<Byte>)
    requires |h| == HDR_LEN && h[..6] == MAGIC && field != []
    requires ParseOctal(NameField(h)) == |field| && ParseOctal(SizeField(h)) == |data|
    ensures ReadOdc(h + field + data + rest) ==
            if EntryName(field) == TRAILER then []
            else Keep(Entry(EntryName(field), data, HeaderMode(h))) + ReadOdc(rest)
  {
    hide ReadOdc, ParseOctal, EntryName, Keep, NameField, SizeField, HeaderMode;
    var s := h + field + data + rest;
    var n, f := |field|, |data|;
    assert s[..HDR_LEN] == h && s[..6] == h[..6];
    assert s[HDR_LEN..HDR_LEN + n] == field && s[HDR_LEN + n..HDR_LEN + n + f] == data && s[HDR_LEN + n + f..] == rest;
    ReadStep(s);
  }

  method ReadOdcCpio(data: seq<Byte>) returns (entries: seq<Entry>)
    ensures entries == ReadOdc(data)
  {
    hide ReadOdc, ParseOctal, EntryName, NameField, SizeField, HeaderMode, Entry.IsDirectory;
    entries := [];
    var pos := 0;
    assert data[0..] == data;
    while pos + HDR_LEN <= |data|
      invariant pos <= |data|
      invariant ReadOdc(data) == entries + ReadOdc(data[pos..])
    {
      ghost var unread := data[pos..];
      ReadStep(unread);
      SliceFrom(data, pos, 0, HDR_LEN);
      SliceFrom(data, pos, 0, 6);
      if data[pos..pos + 6] != MAGIC {
        return;
      }
      var h := data[pos..pos + HDR_LEN];
      var nameSize, fileSize := ParseOctal(NameField(h)), ParseOctal(SizeField(h));
      pos := pos + HDR_LEN;
      if nameSize == 0 || pos + nameSize > |data| {
        return;
      }
      var field := data[pos..pos + nameSize];
      pos := pos + nameSize;
      if pos + fileSize > |data| {
        return;
      }
      var fileData := data[pos..pos + fileSize];
      SliceFrom(data, pos - HDR_LEN - nameSize, HDR_LEN, HDR_LEN + nameSize);
      SliceFrom(data, pos - HDR_LEN - nameSize, HDR_LEN + nameSize, HDR_LEN + nameSize + fileSize);
      SliceFrom(data, pos - HDR_LEN - nameSize, HDR_LEN + nameSize + fileSize, HDR_LEN + nameSize + fileSize);
      pos := pos + fileSize;
      var name := EntryName(field);
      if name == TRAILER {
        return;
      }
      var entry := Entry(name, fileData, HeaderMode(h));
      if entry.IsDirectory() {
        continue;
      }
      entries := entries + [entry];
    }
    ReadStep(data[pos..]);
  }

  // ---- The completeness gate ----

  /** An archive member as the gate walks over it. */
  datatype Member = Member(header: seq<Byte>, field: seq<Byte>, data: seq<Byte>) {
    predicate Valid() {
      && |header| == HDR_LEN && header[..6] == MAGIC
      && StrictOctal(NameField(header)) == Some(|field|) && 0 < |field| <= 4096 && field[|field| - 1] == 0
      && StrictOctal(SizeField(header)) == Some(|data|)
      && field != TRAILER + [0]
    }

    function Text(): seq<Byte> {
      header + field + data
    }

    /** The member as the lenient reader sees it. */
    function AsEntry(): Entry
      requires |header| == HDR_LEN
    {
      Entry(EntryName(field), data, HeaderMode(header))
    }
  }

  /** The members the gate walks over before the trailer, and the length of all it has looked at. */
  datatype Walk = Walk(members: seq<Member>, length: nat)

  /** The sizes of name and data in the header at the front of `data`, as the gate accepts them. */
  function GateSizes(data: seq<Byte>): (sizes: Option<(nat, nat)>)
    ensures sizes.Some? ==> HasHeader(data) && 0 < sizes.value.0 <= MAX_NAME && HDR_LEN + sizes.value.0 <= |data|
  {
    if !HasHeader(data) then None
    else match (StrictOctal(NameField(data[..HDR_LEN])), StrictOctal(SizeField(data[..HDR_LEN])))
      case (Some(n), Some(f)) =>
        if 0 < n <= MAX_NAME && HDR_LEN + n <= |data| && data[HDR_LEN + n - 1] == 0 then Some((n, f)) else None
      case _ => None
  }

  predicate IsTrailer(data: seq<Byte>) {
    GateSizes(data) == Some((11, 0)) && data[HDR_LEN..HDR_LEN + 11] == TRAILER + [0]
  }

  /** The member at the front of `data`, if one other than the trailer is complete there. */
  function FirstMember(data: seq<Byte>): (m: Option<Member>)
    ensures m.Some? ==> HDR_LEN < |m.value.Text()| <= |data|
  {
    match GateSizes(data)
    case None => None
    case Some((n, f)) =>
      if HDR_LEN + n + f > |data| || data[HDR_LEN..HDR_LEN + n] == TRAILER + [0] then None
      else Some(Member(data[..HDR_LEN], data[HDR_LEN..HDR_LEN + n], data[HDR_LEN + n..HDR_LEN + n + f]))
  }

  lemma FirstMemberText(data: seq<Byte>, m: Member)
    requires FirstMember(data) == Some(m)
    ensures m.Valid() && data == m.Text() + data[|m.Text()|..]
  {
    hide StrictOctal;
    assert m.header[..6] == data[..6];
  }

  function WalkArchive(data: seq<Byte>): Option<Walk>
    decreases |data|
  {
    if IsTrailer(data) then Some(Walk([], HDR_LEN + 11))
    else match FirstMember(data)
      case None => None
      case Some(m) =>
        match WalkArchive(data[|m.Text()|..])
        case None => None
        case Some(w) => Some(Walk([m] + w.members, |m.Text()| + w.length))
  }

  /** `complete_cpio`: the octets are an archive through its trailer. */
  predicate Complete(data: seq<Byte>) {
    WalkArchive(data).Some?
  }

  method CompleteCpio(data: seq<Byte>) returns (ok: bool)
    ensures ok == Complete(data)
  {
    hide WalkArchive, StrictOctal, FirstMember;
    var pos := 0;
    assert data[0..] == data;
    while pos + HDR_LEN <= |data|
      invariant pos <= |data|
      invariant WalkArchive(data).Some? == WalkArchive(data[pos..]).Some?
    {
      ghost var unread := data[pos..];
      WalkStep(unread);
      var h := data[pos..pos + HDR_LEN];
      assert h == unread[..HDR_LEN] && h[..6] == unread[..6];
      if h[..6] != MAGIC {
        return false;
      }
      var nameSize, fileSize := StrictOctal(NameField(h)), StrictOctal(SizeField(h));
      if nameSize.None? || fileSize.None? || nameSize.value == 0 || nameSize.value > MAX_NAME {
        return false;
      }
      pos := pos + HDR_LEN;
      var nameEnd := pos + nameSize.value;
      if nameEnd > |data| {
        return false;
      }
      var field := data[pos..nameEnd];
      assert field == unread[HDR_LEN..HDR_LEN + nameSize.value];
      assert field[|field| - 1] == unread[HDR_LEN + nameSize.value - 1];
      if field[|field| - 1] != 0 {
        return false;
      }
      if field == TRAILER + [0] {
        return fileSize.value == 0;
      }
      if nameEnd + fileSize.value > |data| {
        return false;
      }
      pos := nameEnd + fileSize.value;
      assert unread[HDR_LEN + nameSize.value + fileSize.value..] == data[pos..];
    }
    WalkStep(data[pos..]);
    return false;
  }

  /** One step of the gate, in terms of the sizes in the header in front. */
  lemma WalkStep(data: seq<Byte>)
    ensures match GateSizes(data)
            case None => WalkArchive(data).None?
            case Some((n, f)) =>
              if data[HDR_LEN..HDR_LEN + n] == TRAILER + [0] then WalkArchive(data).Some? == (f == 0)
              else if HDR_LEN + n + f > |data| then WalkArchive(data).None?
              else WalkArchive(data).Some? == WalkArchive(data[HDR_LEN + n + f..]).Some?
  {
    hide *;
    WalkUnfold(data);
    FirstMemberStep(data);
    TrailerStep(data);
  }

  lemma TrailerStep(data: seq<Byte>)
    ensures match GateSizes(data)
            case None => !IsTrailer(data)
            case Some((n, f)) => IsTrailer(data) == (data[HDR_LEN..HDR_LEN + n] == TRAILER + [0] && f == 0)
  {
    hide GateSizes;
    if GateSizes(data).Some? {
      assert |data[HDR_LEN..HDR_LEN + GateSizes(data).value.0]| == GateSizes(data).value.0;
      assert |TRAILER + [0]| == 11;
    }
  }

  lemma FirstMemberStep(data: seq<Byte>)
    ensures match GateSizes(data)
            case None => FirstMember(data) == None
            case Some((n, f)) =>
              if data[HDR_LEN..HDR_LEN + n] == TRAILER + [0] || HDR_LEN + n + f > |data| then FirstMember(data) == None
              else FirstMember(data).Some? && |FirstMember(data).value.Text()| == HDR_LEN + n + f
  {
    hide GateSizes;
  }

  // ---- The gate justifies the reader ----

  ghost predicate AllValid(ms: seq<Member>) {
    forall i :: 0 <= i < |ms| ==> ms[i].Valid()
  }

  /** What the members deliver, directories left out. */
  ghost function Files(ms: seq<Member>): seq<Entry>
    requires AllValid(ms)
  {
    if ms == [] then [] else Keep(ms[0].AsEntry()) + Files(ms[1..])
  }

  lemma FilesUnfold(ms: seq<Member>)
    requires AllValid(ms) && ms != []
    ensures |ms[0].header| == HDR_LEN && AllValid(ms[1..])
    ensures Files(ms) == Keep(ms[0].AsEntry()) + Files(ms[1..])
  {
    hide Keep;
  }

  lemma AllValidJoined(a: seq<Member>, b: seq<Member>)
    requires AllValid(a) && AllValid(b)
    ensures AllValid(a + b)
  {
    hide Member.Valid;
  }

  lemma NoFiles()
    ensures AllValid([]) && Files([]) == []
  {
  }

  lemma {:induction false} FilesConcat(a: seq<Member>, b: seq<Member>)
    requires AllValid(a) && AllValid(b)
    ensures AllValid(a + b) && Files(a + b) == Files(a) + Files(b)
  {
    hide *;
    AllValidJoined(a, b);
    if a == [] {
      NoFiles();
      assert a + b == b && Files(a) + Files(b) == Files(b);
    } else {
      FilesUnfold(a);
      FilesUnfold(a + b);
      assert (a + b)[1..] == a[1..] + b && (a + b)[0] == a[0];
      FilesConcat(a[1..], b);
      var one, rest := Keep(a[0].AsEntry()), Files(a[1..]);
      assert one + (rest + Files(b)) == one + rest + Files(b);
    }
  }

  /** Position of the first member whose name the reader takes for the trailer's. */
  ghost function TrailerLike(ms: seq<Member>): (k: nat)
    ensures k <= |ms|
  {
    if ms == [] || EntryName(ms[0].field) == TRAILER then 0 else 1 + TrailerLike(ms[1..])
  }

  lemma {:induction false} TrailerLikeIsFirst(ms: seq<Member>)
    ensures var k := TrailerLike(ms);
            && (k < |ms| ==> EntryName(ms[k].field) == TRAILER)
            && forall i :: 0 <= i < k ==> EntryName(ms[i].field) != TRAILER
  {
    hide EntryName;
    if ms != [] && EntryName(ms[0].field) != TRAILER {
      TrailerLikeIsFirst(ms[1..]);
      assert forall i :: 0 < i < |ms| ==> ms[i] == ms[1..][i - 1];
    }
  }

  /** The reader takes exactly the trailer's name followed by any number of NULs for the trailer. */
  lemma TrailerNames(field: seq<Byte>)
    ensures EntryName(field) == TRAILER <==> TRAILER <= field && forall i :: 10 <= i < |field| ==> field[i] == 0
  {
    if TRAILER <= field && forall i :: 10 <= i < |field| ==> field[i] == 0 {
      assert IsAscii(field) by {
        forall i | 0 <= i < |field|
          ensures field[i] < 0x80
        {
          assert i < 10 ==> field[i] == TRAILER[i];
        }
      }
      AsciiIsUtf8(field);
      assert field[..10] == TRAILER;
      TrimNulsOf(TRAILER, field[10..]);
      assert field == TRAILER + field[10..];
    }
  }

  lemma {:induction false} TrimNulsOf(name: seq<Byte>, nuls: seq<Byte>)
    requires name != [] ==> name[|name| - 1] != 0
    requires forall i :: 0 <= i < |nuls| ==> nuls[i] == 0
    ensures TrimNuls(name + nuls) == name
    decreases |nuls|
  {
    if nuls != [] {
      assert (name + nuls)[..|name| + |nuls| - 1] == name + nuls[..|nuls| - 1];
      TrimNulsOf(name, nuls[..|nuls| - 1]);
    } else {
      assert name + nuls == name;
    }
  }

  lemma ReadOdcTrailer(data: seq<Byte>)
    requires IsTrailer(data)
    ensures ReadOdc(data) == []
  {
    hide StrictOctal, ParseOctal, ReadOdc, EntryName;
    var h := data[..HDR_LEN];
    StrictIsLenient(NameField(h), 11);
    StrictIsLenient(SizeField(h), 0);
    assert h[..6] == data[..6];
    assert data == h + (TRAILER + [0]) + [] + data[HDR_LEN + 11..];
    ReadOdcMember(h, TRAILER + [0], [], data[HDR_LEN + 11..]);
    TrailerNames(TRAILER + [0]);
  }

  lemma {:induction false} WalkMembers(data: seq<Byte>)
    ensures WalkArchive(data).Some? ==> AllValid(WalkArchive(data).value.members)
    decreases |data|
  {
    hide StrictOctal, FirstMember, IsTrailer, Member.Valid;
    if !IsTrailer(data) && FirstMember(data).Some? {
      FirstMemberText(data, FirstMember(data).value);
      WalkMembers(data[|FirstMember(data).value.Text()|..]);
    }
  }

  /**
   * Once the gate accepts, the reader walks over the same members and delivers the files among
   * them, up to the first member whose name it takes for the trailer's.
   */
  lemma {:induction false} ReaderFollowsGate(data: seq<Byte>, w: Walk)
    requires WalkArchive(data) == Some(w)
    ensures AllValid(w.members) && ReadOdc(data) == Files(w.members[..TrailerLike(w.members)])
    decreases |data|
  {
    hide StrictOctal, ParseOctal, ReadOdc, FirstMember, EntryName, IsTrailer;
    WalkMembers(data);
    if IsTrailer(data) {
      ReadOdcTrailer(data);
    } else {
      var m := FirstMember(data).value;
      var rest := data[|m.Text()|..];
      FirstMemberText(data, m);
      ReaderFollowsGate(rest, WalkArchive(rest).value);
      StrictIsLenient(NameField(m.header), |m.field|);
      StrictIsLenient(SizeField(m.header), |m.data|);
      ReadOdcMember(m.header, m.field, m.data, rest);
      var ms, k := w.members, TrailerLike(w.members);
      assert ms[1..] == WalkArchive(rest).value.members;
      if k > 0 {
        assert ms[..k][1..] == ms[1..][..k - 1];
      }
    }
  }

  /** So the reader delivers every file exactly when nothing but directories follows such a member. */
  lemma ReaderDeliversAll(data: seq<Byte>, w: Walk)
    requires WalkArchive(data) == Some(w)
    ensures AllValid(w.members)
    ensures ReadOdc(data) == Files(w.members) <==> Files(w.members[TrailerLike(w.members)..]) == []
  {
    hide WalkArchive, ReadOdc, Files, Member.Valid, TrailerLike, EntryName;
    ReaderFollowsGate(data, w);
    var k := TrailerLike(w.members);
    FilesConcat(w.members[..k], w.members[k..]);
    assert w.members == w.members[..k] + w.members[k..];
    SameWithSuffix(Files(w.members[..k]), Files(w.members[k..]));
  }

  lemma SameWithSuffix<T>(a: seq<T>, b: seq<T>)
    ensures a == a + b <==> b == []
  {
    assert |a + b| == |a| + |b|;
  }

  /** Acceptance depends only on the octets through the trailer. */
  lemma {:induction false} WalkIsPrefixStable(data: seq<Byte>, more: seq<Byte>, w: Walk)
    requires WalkArchive(data) == Some(w)
    ensures w.length <= |data| && WalkArchive(data + more) == Some(w)
    decreases |data|
  {
    hide WalkArchive, FirstMember, IsTrailer;
    WalkUnfold(data);
    WalkUnfold(data + more);
    TrailerStable(data, more);
    if !IsTrailer(data) {
      var n := |FirstMember(data).value.Text()|;
      FirstMemberStable(data, more);
      assert (data + more)[n..] == data[n..] + more;
      WalkIsPrefixStable(data[n..], more, WalkArchive(data[n..]).value);
    }
  }

  lemma TrailerStable(data: seq<Byte>, more: seq<Byte>)
    ensures IsTrailer(data) ==> |data| >= HDR_LEN + 11 && IsTrailer(data + more)
    ensures FirstMember(data).Some? ==> IsTrailer(data + more) == IsTrailer(data)
  {
    hide GateSizes;
    GateSizesStable(data, more);
    if GateSizes(data).Some? {
      var n := GateSizes(data).value.0;
      assert (data + more)[HDR_LEN..HDR_LEN + n] == data[HDR_LEN..HDR_LEN + n];
    }
  }

  lemma GateSizesStable(data: seq<Byte>, more: seq<Byte>)
    ensures GateSizes(data).Some? ==> GateSizes(data + more) == GateSizes(data)
  {
    hide StrictOctal;
    if |data| >= HDR_LEN {
      assert (data + more)[..HDR_LEN] == data[..HDR_LEN] && (data + more)[..6] == data[..6];
    }
  }

  lemma FirstMemberStable(data: seq<Byte>, more: seq<Byte>)
    ensures FirstMember(data).Some? ==> FirstMember(data + more) == FirstMember(data)
  {
    hide GateSizes;
    GateSizesStable(data, more);
    if FirstMember(data).Some? {
      var (n, f) := GateSizes(data).value;
      assert (data + more)[HDR_LEN..HDR_LEN + n] == data[HDR_LEN..HDR_LEN + n];
      assert (data + more)[HDR_LEN + n..HDR_LEN + n + f] == data[HDR_LEN + n..HDR_LEN + n + f];
      assert (data + more)[..HDR_LEN] == data[..HDR_LEN];
    }
  }

  /** An archive that ends with its trailer is rejected when cut anywhere. */
  lemma CutIsIncomplete(data: seq<Byte>, w: Walk, n: nat)
    requires WalkArchive(data) == Some(w) && w.length == |data| && n < |data|
    ensures !Complete(data[..n])
  {
    hide WalkArchive;
    if WalkArchive(data[..n]).Some? {
      assert data[..n] + data[n..] == data;
      WalkIsPrefixStable(data[..n], data[n..], WalkArchive(data[..n]).value);
    }
  }

  // ---- The sender's builder ----

  datatype File = File(name: seq<Byte>, data: seq<Byte>) {
    /** The sizes fit their fields and the gate's limits, and the name is not the trailer's. */
    predicate Packable() {
      |name| + 1 <= MAX_NAME && name != TRAILER && |data| < 0x2_0000_0000
    }

    /** The name is text without NULs, and not one of the directory names. */
    predicate Deliverable() {
      Packable() && IsUtf8(name) && 0 !in name && name != DOT && name != DOT_DOT
    }
  }

  function MemberOf(ino: nat, file: File, mode: nat): Member {
    Member(Header(ino, |file.name| + 1, |file.data|, mode), file.name + [0], file.data)
  }

  function ArchiveFrom(files: seq<File>, ino: nat): seq<Byte> {
    if files == [] then Header(0, 11, 0, 0) + (TRAILER + [0])
    else MemberOf(ino, files[0], REGULAR_MODE).Text() + ArchiveFrom(files[1..], ino + 1)
  }

  /** The archive of the files, led by a directory entry when asked for. */
  function Archive(files: seq<File>, dotDir: bool): seq<Byte> {
    if dotDir then MemberOf(1, File(DOT, []), DIRECTORY_MODE).Text() + ArchiveFrom(files, 2)
    else ArchiveFrom(files, 1)
  }

  method BuildOdcCpio(files: seq<File>, dotDir: bool) returns (out: seq<Byte>)
    ensures out == Archive(files, dotDir)
  {
    hide Header;
    out := [];
    var ino := 1;
    if dotDir {
      out := out + Header(ino, 2, 0, DIRECTORY_MODE) + (DOT + [0]);
      assert out == MemberOf(1, File(DOT, []), DIRECTORY_MODE).Text();
      ino := ino + 1;
    }
    assert files[0..] == files;
    for i := 0 to |files|
      invariant ino == i + (if dotDir then 2 else 1)
      invariant Archive(files, dotDir) == out + ArchiveFrom(files[i..], ino)
    {
      var file := files[i];
      ghost var before := out;
      out := out + Header(ino, |file.name| + 1, |file.data|, REGULAR_MODE);
      out := out + (file.name + [0]);
      out := out + file.data;
      assert files[i..][1..] == files[i + 1..];
      assert out == before + MemberOf(ino, file, REGULAR_MODE).Text();
      ino := ino + 1;
    }
    out := out + (Header(0, 11, 0, 0) + (TRAILER + [0]));
  }

  lemma MemberOfValid(ino: nat, file: File, mode: nat)
    requires file.Packable() && mode < 0x4_0000
    ensures var m := MemberOf(ino, file, mode); m.Valid() && HeaderMode(m.header) == mode
  {
    hide Header, HeaderMode, NameField, SizeField, StrictOctal;
    HeaderFields(ino, |file.name| + 1, |file.data|, mode);
    assert (file.name + [0])[..|file.name|] == file.name;
    assert (TRAILER + [0])[..10] == TRAILER;
  }

  /** The gate walks over a valid member in front of anything it accepts. */
  lemma WalkMember(m: Member, rest: seq<Byte>)
    requires m.Valid()
    ensures WalkArchive(m.Text() + rest) ==
            match WalkArchive(rest)
            case None => None
            case Some(w) => Some(Walk([m] + w.members, |m.Text()| + w.length))
  {
    hide StrictOctal, WalkArchive;
    var data := m.Text() + rest;
    assert data[..HDR_LEN] == m.header && data[..6] == m.header[..6];
    var n, f := |m.field|, |m.data|;
    assert data[HDR_LEN..HDR_LEN + n] == m.field && data[HDR_LEN + n..HDR_LEN + n + f] == m.data;
    assert data[HDR_LEN + n - 1] == m.field[n - 1];
    assert GateSizes(data) == Some((n, f));
    assert FirstMember(data) == Some(m) && data[|m.Text()|..] == rest;
    WalkUnfold(data);
  }

  lemma WalkUnfold(data: seq<Byte>)
    ensures WalkArchive(data) ==
            if IsTrailer(data) then Some(Walk([], HDR_LEN + 11))
            else match FirstMember(data)
              case None => None
              case Some(m) =>
                match WalkArchive(data[|m.Text()|..])
                case None => None
                case Some(w) => Some(Walk([m] + w.members, |m.Text()| + w.length))
  {
    hide FirstMember, IsTrailer;
  }

  ghost function Members(files: seq<File>, ino: nat): seq<Member> {
    if files == [] then [] else [MemberOf(ino, files[0], REGULAR_MODE)] + Members(files[1..], ino + 1)
  }

  lemma {:induction false} ArchiveFromWalk(files: seq<File>, ino: nat)
    requires forall i :: 0 <= i < |files| ==> files[i].Packable()
    ensures WalkArchive(ArchiveFrom(files, ino)) == Some(Walk(Members(files, ino), |ArchiveFrom(files, ino)|))
    decreases |files|
  {
    hide Header, WalkArchive, Member.Valid;
    if files == [] {
      TrailerWalk();
    } else {
      var m := MemberOf(ino, files[0], REGULAR_MODE);
      MemberOfValid(ino, files[0], REGULAR_MODE);
      ArchiveFromWalk(files[1..], ino + 1);
      WalkMember(m, ArchiveFrom(files[1..], ino + 1));
    }
  }

  lemma TrailerWalk()
    ensures var t := Header(0, 11, 0, 0) + (TRAILER + [0]);
            |t| == HDR_LEN + 11 && WalkArchive(t) == Some(Walk([], HDR_LEN + 11))
  {
    hide Header, StrictOctal;
    HeaderFields(0, 11, 0, 0);
    var h, t := Header(0, 11, 0, 0), Header(0, 11, 0, 0) + (TRAILER + [0]);
    assert t[..HDR_LEN] == h && t[..6] == h[..6] && t[HDR_LEN..HDR_LEN + 11] == TRAILER + [0];
    assert t[HDR_LEN + 10] == (TRAILER + [0])[10];
  }

  /** What the reader delivers for the files themselves. */
  function Entries(files: seq<File>): seq<Entry> {
    seq(|files|, i requires 0 <= i < |files| => Entry(files[i].name, files[i].data, REGULAR_MODE))
  }

  lemma NulTerminated(name: seq<Byte>)
    requires IsUtf8(name) && 0 !in name
    ensures EntryName(name + [0]) == name
  {
    hide IsUtf8, TrimNuls;
    AsciiIsUtf8([0]);
    Utf8Concat(name, [0]);
    assert name != [] ==> name[|name| - 1] in name;
    TrimNulsOf(name, [0]);
  }

  lemma DeliverableMember(ino: nat, file: File)
    requires file.Deliverable()
    ensures var m := MemberOf(ino, file, REGULAR_MODE);
            m.Valid() && EntryName(m.field) == file.name
            && Keep(m.AsEntry()) == [Entry(file.name, file.data, REGULAR_MODE)]
  {
    hide Header, HeaderMode, EntryName, IsUtf8, Member.Valid;
    MemberOfValid(ino, file, REGULAR_MODE);
    MemberHeader(MemberOf(ino, file, REGULAR_MODE));
    NulTerminated(file.name);
  }

  lemma MemberHeader(m: Member)
    requires m.Valid()
    ensures |m.header| == HDR_LEN
  {
  }

  lemma {:induction false} DeliverableMembers(files: seq<File>, ino: nat)
    requires forall i :: 0 <= i < |files| ==> files[i].Deliverable()
    ensures AllValid(Members(files, ino)) && Files(Members(files, ino)) == Entries(files)
    ensures TrailerLike(Members(files, ino)) == |Members(files, ino)|
    decreases |files|
  {
    hide EntryName, Header, Member.Valid, Member.AsEntry;
    if files != [] {
      var ms := Members(files, ino);
      DeliverableMember(ino, files[0]);
      DeliverableMembers(files[1..], ino + 1);
      assert ms[1..] == Members(files[1..], ino + 1);
      assert Entries(files) == [Entry(files[0].name, files[0].data, REGULAR_MODE)] + Entries(files[1..]);
    }
  }

  lemma DotMember()
    ensures var m := MemberOf(1, File(DOT, []), DIRECTORY_MODE);
            m.Valid() && EntryName(m.field) == DOT && Keep(m.AsEntry()) == []
  {
    hide Header, HeaderMode, EntryName, IsUtf8, Member.Valid;
    MemberOfValid(1, File(DOT, []), DIRECTORY_MODE);
    MemberHeader(MemberOf(1, File(DOT, []), DIRECTORY_MODE));
    AsciiIsUtf8(DOT);
    NulTerminated(DOT);
  }

  /** The gate accepts every archive the sender builds, walks over all of it, and rejects it when cut. */
  lemma BuiltIsComplete(files: seq<File>, dotDir: bool)
    requires forall i :: 0 <= i < |files| ==> files[i].Packable()
    ensures var a := Archive(files, dotDir);
            && Complete(a) && WalkArchive(a).value.length == |a|
            && forall n :: 0 <= n < |a| ==> !Complete(a[..n])
  {
    hide WalkArchive, Header, Member.Valid;
    var a := Archive(files, dotDir);
    ArchiveFromWalk(files, if dotDir then 2 else 1);
    if dotDir {
      DotMember();
      WalkMember(MemberOf(1, File(DOT, []), DIRECTORY_MODE), ArchiveFrom(files, 2));
    }
    forall n | 0 <= n < |a|
      ensures !Complete(a[..n])
    {
      CutIsIncomplete(a, WalkArchive(a).value, n);
    }
  }

  /** Reading undoes building: names and octets come back in order, without the directory entry. */
  lemma ReadUndoesBuild(files: seq<File>, dotDir: bool)
    requires forall i :: 0 <= i < |files| ==> files[i].Deliverable()
    ensures ReadOdc(Archive(files, dotDir)) == Entries(files)
  {
    hide WalkArchive, Header, ReadOdc, EntryName, Member.AsEntry, Member.Valid;
    var ino := if dotDir then 2 else 1;
    var ms := Members(files, ino);
    DeliverableMembers(files, ino);
    ArchiveFromWalk(files, ino);
    var w := Walk(ms, |ArchiveFrom(files, ino)|);
    if dotDir {
      var dot := MemberOf(1, File(DOT, []), DIRECTORY_MODE);
      DotMember();
      WalkMember(dot, ArchiveFrom(files, ino));
      w := Walk([dot] + ms, |dot.Text()| + w.length);
      assert w.members[1..] == ms;
      assert AllValid(w.members);
    }
    ReaderFollowsGate(Archive(files, dotDir), w);
    assert w.members[..|w.members|] == w.members;
  }

  // ---- What the gate accepts ----

  function Texts(ms: seq<Member>): seq<Byte> {
    if ms == [] then [] else ms[0].Text() + Texts(ms[1..])
  }

  /** The octets of a trailer: a header for a name of eleven octets and no data, and that name. */
  predicate IsTrailerText(t: seq<Byte>) {
    && |t| == 87 && t[..6] == MAGIC && StrictOctal(t[59..65]) == Some(11) && StrictOctal(t[65..76]) == Some(0)
    && t[76..] == TRAILER + [0]
  }

  ghost predicate IsArchive(data: seq<Byte>, ms: seq<Member>, t: seq<Byte>, rest: seq<Byte>) {
    AllValid(ms) && IsTrailerText(t) && data == Texts(ms) + t + rest
  }

  lemma TrailerIs(data: seq<Byte>)
    ensures IsTrailer(data) <==> |data| >= 87 && IsTrailerText(data[..87])
  {
    hide StrictOctal;
    if |data| >= 87 {
      var t, h := data[..87], data[..HDR_LEN];
      assert t[..6] == data[..6] && t[59..65] == h[59..65] && t[65..76] == h[65..76] && t[76..] == data[76..87];
      assert IsTrailerText(t) ==> data[86] == t[76..][10];
    }
  }

  lemma TextsUnfold(ms: seq<Member>)
    ensures Texts(ms) == if ms == [] then [] else ms[0].Text() + Texts(ms[1..])
  {
  }

  lemma {:induction false} AcceptedIsArchive(data: seq<Byte>) returns (t: seq<Byte>, rest: seq<Byte>)
    requires Complete(data)
    ensures IsArchive(data, WalkArchive(data).value.members, t, rest)
    decreases |data|
  {
    hide WalkArchive, FirstMember, IsTrailer, IsTrailerText, Texts, Member.Valid, Member.Text;
    WalkUnfold(data);
    TrailerIs(data);
    var ms := WalkArchive(data).value.members;
    TextsUnfold(ms);
    if IsTrailer(data) {
      t, rest := data[..87], data[87..];
      assert data == [] + t + rest;
    } else {
      var m := FirstMember(data).value;
      FirstMemberText(data, m);
      t, rest := AcceptedIsArchive(data[|m.Text()|..]);
      assert ms[1..] == WalkArchive(data[|m.Text()|..]).value.members;
      assert data == m.Text() + (Texts(ms[1..]) + t + rest);
    }
  }

  lemma {:induction false} ArchiveIsAccepted(ms: seq<Member>, t: seq<Byte>, rest: seq<Byte>)
    requires AllValid(ms) && IsTrailerText(t)
    ensures Complete(Texts(ms) + t + rest) && WalkArchive(Texts(ms) + t + rest).value.members == ms
    decreases |ms|
  {
    hide WalkArchive, IsTrailerText, Member.Valid, Member.Text;
    var data := Texts(ms) + t + rest;
    if ms == [] {
      TrailerLength(t);
      assert data == t + rest && data[..87] == t;
      TrailerIs(data);
      WalkUnfold(data);
    } else {
      ArchiveIsAccepted(ms[1..], t, rest);
      assert data == ms[0].Text() + (Texts(ms[1..]) + t + rest);
      WalkMember(ms[0], Texts(ms[1..]) + t + rest);
    }
  }

  lemma TrailerLength(t: seq<Byte>)
    requires IsTrailerText(t)
    ensures |t| == 87
  {
  }

  /** The gate accepts exactly the valid members, one after another, with a trailer behind them. */
  lemma CompleteIff(data: seq<Byte>)
    ensures Complete(data) <==> exists ms, t, rest :: IsArchive(data, ms, t, rest)
  {
    hide WalkArchive, IsTrailerText;
    if Complete(data) {
      var t, rest := AcceptedIsArchive(data);
    }
    if exists ms, t, rest :: IsArchive(data, ms, t, rest) {
      var ms, t, rest :| IsArchive(data, ms, t, rest);
      ArchiveIsAccepted(ms, t, rest);
    }
  }

  /** A name that is the trailer's plus a NUL passes the gate but ends the reading, losing the file after it. */
  lemma ReaderStopsEarly()
    ensures var a := Archive([File(TRAILER + [0], []), File([97], [1])], false);
            Complete(a) && ReadOdc(a) == []
  {
    hide WalkArchive, Header, ReadOdc, EntryName, Member.AsEntry, Member.Valid;
    var files := [File(TRAILER + [0], []), File([97], [1])];
    BuiltIsComplete(files, false);
    ArchiveFromWalk(files, 1);
    var ms := Members(files, 1);
    TrailerNames(TRAILER + [0] + [0]);
    ReaderFollowsGate(Archive(files, false), Walk(ms, |Archive(files, false)|));
    assert ms[..0] == [];
  }

  // ---- Which members are delivered, read off the members ----

  /** A file, by its mode, under a name that is not a directory's. */
  ghost predicate IsFile(e: Entry) {
    e.mode / 0x1000 % 16 != 4 && e.name != [46] && e.name != [46, 46]
  }

  /** `at` lists the places of exactly the files among `es`, in order, and `out` is what is there. */
  ghost predicate Picks(es: seq<Entry>, at: seq<nat>, out: seq<Entry>) {
    && |out| == |at| && (forall i, j :: 0 <= i < j < |at| ==> at[i] < at[j])
    && (forall j :: 0 <= j < |at| ==> at[j] < |es| && out[j] == es[at[j]])
    && forall i :: 0 <= i < |es| ==> (i in at <==> IsFile(es[i]))
  }

  ghost function AsEntries(ms: seq<Member>): (es: seq<Entry>)
    requires AllValid(ms)
    ensures |es| == |ms| && forall i :: 0 <= i < |ms| ==> |ms[i].header| == HDR_LEN && es[i] == ms[i].AsEntry()
  {
    seq(|ms|, i requires 0 <= i < |ms| => ms[i].AsEntry())
  }

  lemma NothingPicked()
    ensures AllValid([]) && AsEntries([]) == [] && Picks([], [], Files([]))
  {
  }

  lemma KeepIs(e: Entry)
    ensures Keep(e) == if IsFile(e) then [e] else []
  {
  }

  function OneLater(at: seq<nat>): seq<nat> {
    seq(|at|, j requires 0 <= j < |at| => at[j] + 1)
  }

  lemma OneLaterHas(at: seq<nat>, i: nat)
    ensures i in OneLater(at) <==> i > 0 && i - 1 in at
  {
    if i > 0 && i - 1 in at {
      var j :| 0 <= j < |at| && at[j] == i - 1;
      assert OneLater(at)[j] == i;
    }
  }

  lemma PickLater(es: seq<Entry>, at: seq<nat>, out: seq<Entry>, e: Entry)
    requires Picks(es, at, out) && !IsFile(e)
    ensures Picks([e] + es, OneLater(at), out)
  {
    hide IsFile;
    var all := [e] + es;
    forall i: nat ensures i in OneLater(at) <==> i > 0 && i - 1 in at {
      OneLaterHas(at, i);
    }
    hide OneLater;
    assert forall i :: 0 < i < |all| ==> all[i] == es[i - 1];
  }

  lemma PickFirst(es: seq<Entry>, at: seq<nat>, out: seq<Entry>, e: Entry)
    requires Picks(es, at, out) && IsFile(e)
    ensures Picks([e] + es, [0] + OneLater(at), [e] + out)
  {
    hide IsFile;
    var all := [e] + es;
    forall i: nat ensures i in OneLater(at) <==> i > 0 && i - 1 in at {
      OneLaterHas(at, i);
    }
    assert forall i: nat :: i in [0] + OneLater(at) <==> i == 0 || i - 1 in at;
    assert forall i :: 0 < i < |all| ==> all[i] == es[i - 1];
  }

  lemma PickOne(es: seq<Entry>, at: seq<nat>, out: seq<Entry>, e: Entry) returns (both: seq<nat>)
    requires Picks(es, at, out)
    ensures Picks([e] + es, both, Keep(e) + out)
  {
    hide Picks, Keep, IsFile, OneLater;
    KeepIs(e);
    if IsFile(e) {
      both := [0] + OneLater(at);
      PickFirst(es, at, out, e);
    } else {
      both := OneLater(at);
      assert [] + out == out;
      PickLater(es, at, out, e);
    }
  }

  lemma {:induction false} FilesArePicked(ms: seq<Member>) returns (at: seq<nat>)
    requires AllValid(ms)
    ensures Picks(AsEntries(ms), at, Files(ms))
  {
    hide Member.Valid, Member.AsEntry, Keep, Picks;
    if ms == [] {
      at := [];
      NothingPicked();
    } else {
      FilesUnfold(ms);
      var rest := FilesArePicked(ms[1..]);
      at := PickOne(AsEntries(ms[1..]), rest, Files(ms[1..]), ms[0].AsEntry());
      assert [ms[0].AsEntry()] + AsEntries(ms[1..]) == AsEntries(ms);
    }
  }

  /** There are no files among members that are all directories, by their modes or names. */
  lemma NoFilesIff(ms: seq<Member>)
    requires AllValid(ms)
    ensures Files(ms) == [] <==> forall i :: 0 <= i < |ms| ==> !IsFile(AsEntries(ms)[i])
  {
    var at := FilesArePicked(ms);
    hide IsFile, Files;
    if at == [] {
      assert forall i :: 0 <= i < |ms| ==> i !in at;
    } else {
      assert at[0] in at;
    }
  }

  /**
   * Of an accepted archive exactly those members are delivered, in order, with their names, octets and modes, that
   * come before the first trailer-like name, are no directories by their mode, and are not called `.` or `..`.
   */
  lemma DeliveredIff(data: seq<Byte>, w: Walk) returns (at: seq<nat>)
    requires WalkArchive(data) == Some(w)
    ensures AllValid(w.members) && Picks(AsEntries(w.members[..TrailerLike(w.members)]), at, ReadOdc(data))
  {
    ReaderFollowsGate(data, w);
    hide WalkArchive, ReadOdc, Files, Member.Valid, TrailerLike, Picks;
    at := FilesArePicked(w.members[..TrailerLike(w.members)]);
  }

  // ---- Archives of files and directories of any mode ----

  ghost predicate Packs(es: seq<Entry>) {
    forall i :: 0 <= i < |es| ==>
                  && |es[i].name| <= 4095 && es[i].name != TRAILER && IsUtf8(es[i].name) && 0 !in es[i].name
                  && |es[i].data| < 0x2_0000_0000 && es[i].mode < 0x4_0000
  }

  function Packed(es: seq<Entry>, ino: nat): seq<Byte> {
    if es == [] then Header(0, 11, 0, 0) + (TRAILER + [0])
    else MemberOf(ino, File(es[0].name, es[0].data), es[0].mode).Text() + Packed(es[1..], ino + 1)
  }

  ghost function PackedMembers(es: seq<Entry>, ino: nat): seq<Member> {
    if es == [] then []
    else [MemberOf(ino, File(es[0].name, es[0].data), es[0].mode)] + PackedMembers(es[1..], ino + 1)
  }

  lemma PackedFirst(es: seq<Entry>, ino: nat)
    requires Packs(es) && es != []
    ensures var m := MemberOf(ino, File(es[0].name, es[0].data), es[0].mode);
            m.Valid() && |m.header| == HDR_LEN && m.AsEntry() == es[0] && EntryName(m.field) != TRAILER
    ensures Packs(es[1..])
  {
    hide Header, HeaderMode, EntryName, IsUtf8, Member.Valid;
    var file := File(es[0].name, es[0].data);
    MemberOfValid(ino, file, es[0].mode);
    MemberHeader(MemberOf(ino, file, es[0].mode));
    NulTerminated(es[0].name);
  }

  lemma {:induction false} PackedWalk(es: seq<Entry>, ino: nat)
    requires Packs(es)
    ensures WalkArchive(Packed(es, ino)) == Some(Walk(PackedMembers(es, ino), |Packed(es, ino)|))
    decreases |es|
  {
    hide Header, WalkArchive, Member.Valid, Member.AsEntry, EntryName, Packs;
    if es == [] {
      TrailerWalk();
    } else {
      PackedFirst(es, ino);
      PackedWalk(es[1..], ino + 1);
      WalkMember(MemberOf(ino, File(es[0].name, es[0].data), es[0].mode), Packed(es[1..], ino + 1));
    }
  }

  lemma TrailerLikeCons(m: Member, ms: seq<Member>)
    requires m.Valid() && AllValid(ms) && EntryName(m.field) != TRAILER
    ensures TrailerLike([m] + ms) == 1 + TrailerLike(ms)
    ensures AllValid([m] + ms) && AsEntries([m] + ms) == [m.AsEntry()] + AsEntries(ms)
  {
    hide EntryName, Member.Valid, Member.AsEntry;
    MemberHeader(m);
    assert ([m] + ms)[1..] == ms;
  }

  lemma {:induction false} PackedAsEntries(es: seq<Entry>, ino: nat)
    requires Packs(es)
    ensures AllValid(PackedMembers(es, ino)) && AsEntries(PackedMembers(es, ino)) == es
    ensures TrailerLike(PackedMembers(es, ino)) == |es|
    decreases |es|
  {
    hide Header, Member.Valid, Member.AsEntry, EntryName, Packs, MemberOf, TrailerLike, AllValid;
    if es == [] {
      NothingPicked();
      assert TrailerLike([]) == 0 by {
        NoTrailerLike();
      }
    } else {
      PackedFirst(es, ino);
      PackedAsEntries(es[1..], ino + 1);
      TrailerLikeCons(MemberOf(ino, File(es[0].name, es[0].data), es[0].mode), PackedMembers(es[1..], ino + 1));
      assert [es[0]] + es[1..] == es;
    }
  }

  lemma NoTrailerLike()
    ensures TrailerLike([]) == 0
  {
  }

  /** Of any files and directories packed with any modes, the files come back in order, with their modes. */
  lemma ReadUndoesPack(es: seq<Entry>, ino: nat) returns (at: seq<nat>)
    requires Packs(es)
    ensures Complete(Packed(es, ino)) && Picks(es, at, ReadOdc(Packed(es, ino)))
  {
    PackedWalk(es, ino);
    PackedAsEntries(es, ino);
    var ms := PackedMembers(es, ino);
    at := DeliveredIff(Packed(es, ino), Walk(ms, |Packed(es, ino)|));
    hide Packs, WalkArchive, ReadOdc, Packed, PackedMembers, Member.Valid, TrailerLike, Picks;
    assert |ms| == |es| && ms[..|es|] == ms;
  }
}
