/** Text as the Rust standard library reads it from octets: UTF-8, trimming and numerals. */
module Text {
  import opened Wrappers
  import opened ByteSeqs

  // ---- UTF-8 (RFC 3629, section 4) ----

  predicate Continues(b: Byte) {
    0x80 <= b <= 0xbf
  }

  /** Length of the well-formed encoded character at the front of `s`; 0 when there is none. */
  function CharLen(s: seq<Byte>): (n: nat)
    ensures n <= |s| && n <= 4
  {
    if s == [] then 0
    else if s[0] < 0x80 then 1
    else if 0xc2 <= s[0] <= 0xdf then if |s| >= 2 && Continues(s[1]) then 2 else 0
    else if 0xe0 <= s[0] <= 0xef then
      if |s| >= 3 && Continues(s[1]) && Continues(s[2])
         && (s[0] == 0xe0 ==> s[1] >= 0xa0) && (s[0] == 0xed ==> s[1] <= 0x9f) then 3 else 0
    else if 0xf0 <= s[0] <= 0xf4 then
      if |s| >= 4 && Continues(s[1]) && Continues(s[2]) && Continues(s[3])
         && (s[0] == 0xf0 ==> s[1] >= 0x90) && (s[0] == 0xf4 ==> s[1] <= 0x8f) then 4 else 0
    else 0
  }

  predicate IsUtf8(s: seq<Byte>) {
    s == [] || (CharLen(s) > 0 && IsUtf8(s[CharLen(s)..]))
  }

  predicate IsAscii(s: seq<Byte>) {
    forall i :: 0 <= i < |s| ==> s[i] < 0x80
  }

  lemma {:induction false} AsciiIsUtf8(s: seq<Byte>)
    requires IsAscii(s)
    ensures IsUtf8(s)
  {
    if s != [] {
      AsciiIsUtf8(s[1..]);
    }
  }

  lemma {:induction false} Utf8Concat(a: seq<Byte>, b: seq<Byte>)
    requires IsUtf8(a) && IsUtf8(b)
    ensures IsUtf8(a + b)
  {
    if a == [] {
      assert a + b == b;
    } else {
      var n := CharLen(a);
      assert CharLen(a + b) == n;
      assert (a + b)[n..] == a[n..] + b;
      Utf8Concat(a[n..], b);
    }
  }

  // ---- Trimming of White_Space characters, on the encoded form ----

  predicate IsWideSpace(c: seq<Byte>) {
    c in [[0xe1, 0x9a, 0x80], [0xe2, 0x80, 0xa8], [0xe2, 0x80, 0xa9], [0xe2, 0x80, 0xaf],
          [0xe2, 0x81, 0x9f], [0xe3, 0x80, 0x80]]
    || (|c| == 3 && c[0] == 0xe2 && c[1] == 0x80 && 0x80 <= c[2] <= 0x8a)
  }

  predicate IsSpaceByte(b: Byte) {
    9 <= b <= 13 || b == 32
  }

  function SpaceAtStart(s: seq<Byte>): (n: nat)
    ensures n <= |s|
  {
    if |s| >= 1 && IsSpaceByte(s[0]) then 1
    else if |s| >= 2 && s[0] == 0xc2 && (s[1] == 0x85 || s[1] == 0xa0) then 2
    else if |s| >= 3 && IsWideSpace(s[..3]) then 3
    else 0
  }

  function SpaceAtEnd(s: seq<Byte>): (n: nat)
    ensures n <= |s|
  {
    if |s| >= 1 && IsSpaceByte(s[|s| - 1]) then 1
    else if |s| >= 2 && s[|s| - 2] == 0xc2 && (s[|s| - 1] == 0x85 || s[|s| - 1] == 0xa0) then 2
    else if |s| >= 3 && IsWideSpace(s[|s| - 3..]) then 3
    else 0
  }

  function TrimStart(s: seq<Byte>): (t: seq<Byte>)
    ensures SpaceAtStart(t) == 0
  {
    if SpaceAtStart(s) == 0 then s else TrimStart(s[SpaceAtStart(s)..])
  }

  function TrimEnd(s: seq<Byte>): (t: seq<Byte>)
    ensures t <= s && SpaceAtEnd(t) == 0
  {
    if SpaceAtEnd(s) == 0 then s else TrimEnd(s[..|s| - SpaceAtEnd(s)])
  }

  function Trim(s: seq<Byte>): seq<Byte> {
    TrimEnd(TrimStart(s))
  }

  predicate IsTrimmed(s: seq<Byte>) {
    SpaceAtStart(s) == 0 && SpaceAtEnd(s) == 0
  }

  /** An ASCII character that is neither white space nor part of an encoded white-space character. */
  predicate IsSolid(b: Byte) {
    b < 0x80 && !IsSpaceByte(b)
  }

  /** None of the octets of a white-space character is solid. */
  lemma WideSpaceOctets(c: seq<Byte>)
    requires |c| == 3 && IsWideSpace(c)
    ensures !IsSolid(c[0]) && !IsSolid(c[1]) && !IsSolid(c[2])
  {
  }

  /** White space at the end does not reach back over a solid octet. */
  lemma SpaceStopsAtSolid(s: seq<Byte>, k: nat)
    requires k < |s| && IsSolid(s[k])
    ensures SpaceAtEnd(s) < |s| - k
  {
    hide IsWideSpace;
    if |s| >= 3 {
      var last := s[|s| - 3..];
      assert last[0] == s[|s| - 3] && last[1] == s[|s| - 2] && last[2] == s[|s| - 1];
      if IsWideSpace(last) {
        WideSpaceOctets(last);
      }
    }
  }

  lemma {:induction false} TrimEndKeeps(p: seq<Byte>, x: seq<Byte>)
    requires p != [] && IsSolid(p[|p| - 1])
    ensures p <= TrimEnd(p + x)
    decreases |x|
  {
    hide SpaceAtEnd, IsSolid;
    var s := p + x;
    var n := SpaceAtEnd(s);
    if n > 0 {
      assert s[|p| - 1] == p[|p| - 1];
      SpaceStopsAtSolid(s, |p| - 1);
      assert s[..|s| - n] == p + x[..|x| - n];
      TrimEndKeeps(p, x[..|x| - n]);
    }
  }

  lemma SolidStart(s: seq<Byte>)
    requires s != [] && IsSolid(s[0])
    ensures SpaceAtStart(s) == 0 && TrimStart(s) == s
  {
  }

  lemma TrimSolid(s: seq<Byte>)
    requires s != [] && IsSolid(s[0]) && IsSolid(s[|s| - 1])
    ensures IsTrimmed(s) && Trim(s) == s
  {
    assert |s| >= 3 ==> s[|s| - 3..][2] == s[|s| - 1];
  }

  // ---- Numerals ----

  function DigitValue(b: Byte): (v: nat) {
    if 48 <= b <= 57 then b - 48
    else if 97 <= b <= 122 then b - 87
    else if 65 <= b <= 90 then b - 55
    else 36
  }

  type Radix = r: int | r == 8 || r == 10 || r == 16 witness 8

  // Multiplication and division by a radix, case by case so that they stay linear.
  function Times(v: nat, base: Radix): nat {
    if base == 8 then 8 * v else if base == 10 then 10 * v else 16 * v
  }

  function Quotient(n: nat, base: Radix): (q: nat)
    ensures n >= base ==> q < n
  {
    if base == 8 then n / 8 else if base == 10 then n / 10 else n / 16
  }

  function Remainder(n: nat, base: Radix): (m: nat)
    ensures m < base && Times(Quotient(n, base), base) + m == n
  {
    if base == 8 then n % 8 else if base == 10 then n % 10 else n % 16
  }

  predicate AreDigits(s: seq<Byte>, base: Radix) {
    forall i :: 0 <= i < |s| ==> DigitValue(s[i]) < base
  }

  function Value(s: seq<Byte>, base: Radix): nat {
    if s == [] then 0 else Times(Value(s[..|s| - 1], base), base) + DigitValue(s[|s| - 1])
  }

  /** `usize::from_str_radix`: an optional plus sign, at least one digit, no overflow. */
  function FromStrRadix(s: seq<Byte>, base: Radix): Option<nat> {
    var digits := if s != [] && s[0] == 43 then s[1..] else s;
    if digits == [] || !AreDigits(digits, base) || Value(digits, base) > USIZE_MAX then None
    else Some(Value(digits, base))
  }

  lemma ParsesIff(s: seq<Byte>, base: Radix, n: nat)
    ensures var digits := if s != [] && s[0] == 43 then s[1..] else s;
            FromStrRadix(s, base) == Some(n) <==>
            digits != [] && AreDigits(digits, base) && Value(digits, base) == n <= 0xffff_ffff_ffff_ffff
  {
  }

  function DigitByte(v: nat): (b: Byte)
    requires v < 16
    ensures DigitValue(b) == v && IsSolid(b) && b != 43 && b != 59
  {
    if v < 10 then 48 + v else 87 + v
  }

  /** The numeral of `n`, lower case, without leading zeros. */
  function Numeral(n: nat, base: Radix): (s: seq<Byte>)
    ensures s != []
    decreases n
  {
    if n < base then [DigitByte(n)]
    else Numeral(Quotient(n, base), base) + [DigitByte(Remainder(n, base))]
  }

  lemma {:induction false} NumeralDigits(n: nat, base: Radix)
    ensures AreDigits(Numeral(n, base), base)
    ensures forall i :: 0 <= i < |Numeral(n, base)| ==>
              IsSolid(Numeral(n, base)[i]) && Numeral(n, base)[i] != 43 && Numeral(n, base)[i] != 59
    decreases n
  {
    if n >= base {
      NumeralDigits(Quotient(n, base), base);
    }
  }

  lemma {:induction false} NumeralValue(n: nat, base: Radix)
    ensures Value(Numeral(n, base), base) == n
    decreases n
  {
    var s := Numeral(n, base);
    if n >= base {
      assert s[..|s| - 1] == Numeral(Quotient(n, base), base);
      NumeralValue(Quotient(n, base), base);
    } else {
      assert s[..0] == [];
    }
  }

  lemma NumeralParses(n: nat, base: Radix)
    requires n <= 0xffff_ffff_ffff_ffff
    ensures FromStrRadix(Numeral(n, base), base) == Some(n)
    ensures IsTrimmed(Numeral(n, base)) && Trim(Numeral(n, base)) == Numeral(n, base)
    ensures IsAscii(Numeral(n, base)) && IsUtf8(Numeral(n, base))
  {
    hide Numeral, Value, IsUtf8, Trim, FromStrRadix;
    var s := Numeral(n, base);
    NumeralDigits(n, base);
    NumeralValue(n, base);
    TrimSolid(s);
    AsciiIsUtf8(s);
    DigitsParse(s, base, n);
  }

  function ZeroDigits(n: nat): (s: seq<Byte>)
    ensures |s| == n && forall i :: 0 <= i < n ==> s[i] == 48
  {
    seq(n, _ => 48)
  }

  /** A numeral padded with zeros to at least `width` digits. */
  function Padded(n: nat, base: Radix, width: nat): (s: seq<Byte>)
    ensures s != [] && AreDigits(s, base)
    ensures forall i :: 0 <= i < |s| ==> IsSolid(s[i]) && s[i] != 43
  {
    var d := Numeral(n, base);
    NumeralDigits(n, base);
    if |d| < width then ZeroDigits(width - |d|) + d else d
  }

  lemma {:induction false} LeadingZeros(k: nat, s: seq<Byte>, base: Radix)
    ensures Value(ZeroDigits(k) + s, base) == Value(s, base)
    decreases k + |s|
  {
    var t := ZeroDigits(k) + s;
    if s != [] {
      assert t[..|t| - 1] == ZeroDigits(k) + s[..|s| - 1];
      LeadingZeros(k, s[..|s| - 1], base);
    } else if k > 0 {
      assert t[..|t| - 1] == ZeroDigits(k - 1) + s;
      LeadingZeros(k - 1, s, base);
    }
  }

  lemma PaddedParses(n: nat, base: Radix, width: nat)
    requires n <= USIZE_MAX
    ensures FromStrRadix(Padded(n, base, width), base) == Some(n)
    ensures IsAscii(Padded(n, base, width)) && IsUtf8(Padded(n, base, width))
  {
    hide Numeral, IsUtf8, FromStrRadix;
    NumeralValue(n, base);
    var d, p := Numeral(n, base), Padded(n, base, width);
    assert Value(p, base) == n by {
      if |d| < width {
        LeadingZeros(width - |d|, d, base);
      }
    }
    DigitsParse(p, base, n);
    AsciiIsUtf8(p);
  }

  lemma DigitsParse(s: seq<Byte>, base: Radix, n: nat)
    requires s != [] && s[0] != 43 && AreDigits(s, base) && Value(s, base) == n <= USIZE_MAX
    ensures FromStrRadix(s, base) == Some(n)
  {
  }

  function Power(base: Radix, k: nat): nat {
    if k == 0 then 1 else Times(Power(base, k - 1), base)
  }

  lemma {:induction false} NumeralFits(n: nat, base: Radix, width: nat)
    requires width > 0 && n < Power(base, width)
    ensures |Numeral(n, base)| <= width
    ensures |Padded(n, base, width)| == width
    decreases width
  {
    if n >= base {
      assert Power(base, width) == Times(Power(base, width - 1), base);
      assert width == 1 ==> Power(base, width - 1) == 1;
      NumeralFits(Quotient(n, base), base, width - 1);
    }
  }
}
