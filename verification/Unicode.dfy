/** What the octet-level reading of text means in characters: UTF-8, white space and digits. */
module Unicode {
  import opened Wrappers
  import opened ByteSeqs
  import opened Text

  // ---- UTF-8 (RFC 3629, section 3) ----

  /** A character number that is not a surrogate. */
  type Scalar = c: nat | c < 0xd800 || 0xe000 <= c < 0x11_0000

  function Encoded(c: Scalar): (b: seq<Byte>)
    ensures 1 <= |b| <= 4
  {
    if c < 0x80 then [c]
    else if c < 0x800 then [0xc0 + c / 64, 0x80 + c % 64]
    else if c < 0x1_0000 then [0xe0 + c / 4096, 0x80 + c / 64 % 64, 0x80 + c % 64]
    else
      assert c / 0x4_0000 <= 4;
      [0xf0 + c / 0x4_0000, 0x80 + c / 4096 % 64, 0x80 + c / 64 % 64, 0x80 + c % 64]
  }

  function Encoding(cs: seq<Scalar>): seq<Byte> {
    if cs == [] then [] else Encoded(cs[0]) + Encoding(cs[1..])
  }

  lemma EncodedIsChar(c: Scalar, rest: seq<Byte>)
    ensures CharLen(Encoded(c) + rest) == |Encoded(c)|
    ensures (Encoded(c) + rest)[|Encoded(c)|..] == rest && (Encoded(c) + rest)[..|Encoded(c)|] == Encoded(c)
  {
    assert (Encoded(c) + rest)[..|Encoded(c)|] == Encoded(c);
    if c < 0x80 {
    } else if c < 0x800 {
    } else if c < 0x1_0000 {
      assert 0xe0 <= 0xe0 + c / 4096 <= 0xef;
    } else {
      FourFit(c);
    }
  }

  lemma FourFit(c: Scalar)
    requires c >= 0x1_0000
    ensures c / 0x4_0000 <= 4 && (c / 0x4_0000 == 0 ==> c / 4096 % 64 >= 0x10)
    ensures c / 0x4_0000 == 4 ==> c / 4096 % 64 <= 0x0f
  {
    assert c / 4096 == c / 0x4_0000 * 64 + c / 4096 % 64;
  }

  lemma TwoOctets(a: nat, b: nat) returns (c: Scalar)
    requires 0xc2 <= a <= 0xdf && 0x80 <= b <= 0xbf
    ensures Encoded(c) == [a, b]
  {
    var n := (a - 0xc0) * 64 + (b - 0x80);
    c := n;
  }

  lemma ThreeOctets(a: nat, b: nat, d: nat) returns (c: Scalar)
    requires 0xe0 <= a <= 0xef && 0x80 <= b <= 0xbf && 0x80 <= d <= 0xbf
    requires (a == 0xe0 ==> b >= 0xa0) && (a == 0xed ==> b <= 0x9f)
    ensures Encoded(c) == [a, b, d]
  {
    var n := (a - 0xe0) * 4096 + (b - 0x80) * 64 + (d - 0x80);
    c := n;
    assert c / 64 == (a - 0xe0) * 64 + (b - 0x80);
  }

  lemma FourOctets(a: nat, b: nat, d: nat, e: nat) returns (c: Scalar)
    requires 0xf0 <= a <= 0xf4 && 0x80 <= b <= 0xbf && 0x80 <= d <= 0xbf && 0x80 <= e <= 0xbf
    requires (a == 0xf0 ==> b >= 0x90) && (a == 0xf4 ==> b <= 0x8f)
    ensures Encoded(c) == [a, b, d, e]
  {
    var n := (a - 0xf0) * 0x4_0000 + (b - 0x80) * 4096 + (d - 0x80) * 64 + (e - 0x80);
    c := n;
    assert c / 64 == (a - 0xf0) * 4096 + (b - 0x80) * 64 + (d - 0x80);
    assert c / 4096 == (a - 0xf0) * 64 + (b - 0x80);
  }

  lemma CharIsEncoded(s: seq<Byte>) returns (c: Scalar)
    requires CharLen(s) > 0
    ensures Encoded(c) == s[..CharLen(s)]
  {
    var n := CharLen(s);
    if n == 1 {
      c := s[0];
    } else if n == 2 {
      c := TwoOctets(s[0], s[1]);
    } else if n == 3 {
      c := ThreeOctets(s[0], s[1], s[2]);
    } else {
      c := FourOctets(s[0], s[1], s[2], s[3]);
    }
    hide Encoded;
  }

  lemma {:induction false} EncodingIsUtf8(cs: seq<Scalar>)
    ensures IsUtf8(Encoding(cs))
    decreases |cs|
  {
    hide CharLen, Encoded;
    if cs != [] {
      EncodedIsChar(cs[0], Encoding(cs[1..]));
      EncodingIsUtf8(cs[1..]);
    }
  }

  lemma {:induction false} Utf8IsEncoding(s: seq<Byte>) returns (cs: seq<Scalar>)
    requires IsUtf8(s)
    ensures Encoding(cs) == s
    decreases |s|
  {
    hide CharLen, Encoded;
    if s == [] {
      cs := [];
    } else {
      var n := CharLen(s);
      var c := CharIsEncoded(s);
      var rest := Utf8IsEncoding(s[n..]);
      cs := [c] + rest;
      assert cs[1..] == rest && s == s[..n] + s[n..];
    }
  }

  /** Octets are text exactly when they are the encoding of some characters. */
  lemma Utf8Iff(s: seq<Byte>)
    ensures IsUtf8(s) <==> exists cs :: Encoding(cs) == s
  {
    hide IsUtf8, Encoding;
    if IsUtf8(s) {
      var cs := Utf8IsEncoding(s);
    }
    if exists cs :: Encoding(cs) == s {
      var cs :| Encoding(cs) == s;
      EncodingIsUtf8(cs);
    }
  }

  // ---- White space ----

  /** The property White_Space of the Unicode character database. */
  predicate IsWhite(c: Scalar) {
    9 <= c <= 13 || 0x2000 <= c <= 0x200a || c in {0x20, 0x85, 0xa0, 0x1680, 0x2028, 0x2029, 0x202f, 0x205f, 0x3000}
  }

  lemma WideSpaceIff(c: Scalar)
    requires |Encoded(c)| == 3
    ensures IsWideSpace(Encoded(c)) <==> IsWhite(c)
  {
    var b := Encoded(c);
    var x: int, y: int, z: int := b[0], b[1], b[2];
    assert c == (x - 0xe0) * 4096 + (y - 0x80) * 64 + (z - 0x80);
  }

  lemma StartsWhite(c: Scalar, rest: seq<Byte>)
    ensures SpaceAtStart(Encoded(c) + rest) == if IsWhite(c) then |Encoded(c)| else 0
  {
    var b, s := Encoded(c), Encoded(c) + rest;
    if |b| == 3 {
      WideSpaceIff(c);
      assert s[..3] == b;
      hide IsWideSpace;
    } else if |s| >= 3 {
      NotWide(s[..3], c);
      hide IsWideSpace;
    }
  }

  lemma EndsWhite(s: seq<Byte>, c: Scalar)
    ensures SpaceAtEnd(s + Encoded(c)) == if IsWhite(c) then |Encoded(c)| else 0
  {
    var b, t := Encoded(c), s + Encoded(c);
    if |b| == 3 {
      WideSpaceIff(c);
      assert t[|t| - 3..] == b;
      hide IsWideSpace;
    } else if |t| >= 3 {
      var last := t[|t| - 3..];
      assert last[2] == b[|b| - 1];
      assert |b| == 2 ==> last[1] == b[0];
      assert |b| == 4 ==> last[0] == b[1];
      NotWideLast(last, c);
      hide IsWideSpace;
    }
  }

  lemma NotWide(first: seq<Byte>, c: Scalar)
    requires |first| == 3 && |Encoded(c)| != 3 && first[0] == Encoded(c)[0]
    ensures !IsWideSpace(first)
  {
  }

  lemma NotWideLast(last: seq<Byte>, c: Scalar)
    requires |last| == 3 && |Encoded(c)| != 3 && last[2] == Encoded(c)[|Encoded(c)| - 1]
    requires (|Encoded(c)| == 2 ==> last[1] == Encoded(c)[0]) && (|Encoded(c)| == 4 ==> last[0] == Encoded(c)[1])
    ensures !IsWideSpace(last)
  {
  }

  predicate AreWhite(cs: seq<Scalar>) {
    forall i :: 0 <= i < |cs| ==> IsWhite(cs[i])
  }

  lemma {:induction false} EncodingParts(a: seq<Scalar>, b: seq<Scalar>)
    ensures Encoding(a + b) == Encoding(a) + Encoding(b)
  {
    hide Encoded;
    if a == [] {
      assert a + b == b;
    } else {
      assert (a + b)[0] == a[0] && (a + b)[1..] == a[1..] + b;
      EncodingParts(a[1..], b);
    }
  }

  lemma EncodingOfOne(c: Scalar)
    ensures Encoding([c]) == Encoded(c)
  {
    assert [c][1..] == [];
  }

  lemma {:induction false} TrimsStart(white: seq<Scalar>, rest: seq<Scalar>)
    requires AreWhite(white) && (rest != [] ==> !IsWhite(rest[0]))
    ensures TrimStart(Encoding(white + rest)) == Encoding(rest)
    decreases |white|
  {
    hide SpaceAtStart, Encoded, IsWhite;
    if white == [] {
      assert white + rest == rest;
      if rest != [] {
        StartsWhite(rest[0], Encoding(rest[1..]));
      } else {
        NoSpaceInNothing();
      }
    } else {
      var more := Encoding(white[1..] + rest);
      assert (white + rest)[0] == white[0] && (white + rest)[1..] == white[1..] + rest;
      StartsWhite(white[0], more);
      assert (Encoded(white[0]) + more)[|Encoded(white[0])|..] == more;
      TrimsStart(white[1..], rest);
    }
  }

  lemma NoSpaceInNothing()
    ensures SpaceAtStart([]) == 0 && SpaceAtEnd([]) == 0
  {
  }

  lemma {:induction false} TrimsEnd(front: seq<Scalar>, white: seq<Scalar>)
    requires AreWhite(white) && (front != [] ==> !IsWhite(front[|front| - 1]))
    ensures TrimEnd(Encoding(front + white)) == Encoding(front)
    decreases |white|
  {
    hide SpaceAtEnd, Encoded, IsWhite, Encoding;
    if white == [] {
      assert front + white == front;
      if front != [] {
        var n := |front| - 1;
        assert front == front[..n] + [front[n]];
        EncodingParts(front[..n], [front[n]]);
        EncodingOfOne(front[n]);
        EndsWhite(Encoding(front[..n]), front[n]);
      } else {
        NothingEncoded();
        NoSpaceInNothing();
      }
    } else {
      var n := |white| - 1;
      var before := Encoding(front + white[..n]);
      assert front + white == (front + white[..n]) + [white[n]];
      EncodingParts(front + white[..n], [white[n]]);
      EncodingOfOne(white[n]);
      EndsWhite(before, white[n]);
      var s := before + Encoded(white[n]);
      assert s[..|s| - |Encoded(white[n])|] == before;
      TrimsEnd(front, white[..n]);
    }
  }

  lemma NothingEncoded()
    ensures Encoding([]) == []
  {
  }

  /** Trimming octets is trimming characters: the white space at both ends goes, and nothing else. */
  lemma TrimIs(front: seq<Scalar>, text: seq<Scalar>, back: seq<Scalar>)
    requires AreWhite(front) && AreWhite(back)
    requires text != [] && !IsWhite(text[0]) && !IsWhite(text[|text| - 1])
    ensures Trim(Encoding(front + text + back)) == Encoding(text)
  {
    hide TrimStart, TrimEnd, Encoding, IsWhite;
    assert front + text + back == front + (text + back);
    TrimsStart(front, text + back);
    TrimsEnd(text, back);
  }

  // ---- Digits ----

  /** The value of a digit counts from zero, or from ten in either case; other characters have none. */
  lemma DigitIs(b: Byte, v: nat)
    requires v < 16
    ensures DigitValue(b) == v <==>
            if v < 10 then b == '0' as int + v else b == 'a' as int + v - 10 || b == 'A' as int + v - 10
  {
  }
}
