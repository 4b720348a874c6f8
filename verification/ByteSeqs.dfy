/** Octets, fixed-width integers on the wire, and splitting of octet strings. */
module ByteSeqs {
  import opened Wrappers

  type Byte = b: int | 0 <= b < 256

  // The largest value of the 64-bit `usize` of the target.
  const USIZE_MAX: nat := 0xffff_ffff_ffff_ffff

  const CR: Byte := 13
  const LF: Byte := 10
  const CRLF: seq<Byte> := [13, 10]

  /** The octets of a text of single-octet characters. */
  function Octets(text: string): seq<Byte> {
    seq(|text|, i requires 0 <= i < |text| => text[i] as int % 256)
  }

  function Min(a: nat, b: nat): nat {
    if a <= b then a else b
  }

  function U16Le(b: seq<Byte>): (n: nat)
    requires |b| == 2
    ensures n < 0x1_0000 && n % 256 == b[0] && n / 256 == b[1]
  {
    b[0] as int + 256 * b[1] as int
  }

  function U16LeBytes(n: nat): (b: seq<Byte>)
    requires n < 0x1_0000
    ensures |b| == 2 && U16Le(b) == n
  {
    [n % 256, n / 256]
  }

  lemma U16LeInjective(b: seq<Byte>)
    requires |b| == 2
    ensures U16LeBytes(U16Le(b)) == b
  {
  }

  function U16Be(b: seq<Byte>): (n: nat)
    requires |b| == 2
    ensures n < 0x1_0000 && n / 256 == b[0] && n % 256 == b[1]
  {
    256 * b[0] as int + b[1] as int
  }

  function U16BeBytes(n: nat): (b: seq<Byte>)
    requires n < 0x1_0000
    ensures |b| == 2 && U16Be(b) == n
  {
    [n / 256, n % 256]
  }

  lemma U16BeInjective(b: seq<Byte>)
    requires |b| == 2
    ensures U16BeBytes(U16Be(b)) == b
  {
  }

  function U32Le(b: seq<Byte>): (n: nat)
    requires |b| == 4
    ensures n == b[0] as int + 256 * b[1] as int + 0x1_0000 * b[2] as int + 0x100_0000 * b[3] as int
    ensures n < 0x1_0000_0000
  {
    U16Le(b[..2]) + 0x1_0000 * U16Le(b[2..])
  }

  function U32LeBytes(n: nat): (b: seq<Byte>)
    requires n < 0x1_0000_0000
    ensures |b| == 4 && U32Le(b) == n
  {
    var lo, hi := U16LeBytes(n % 0x1_0000), U16LeBytes(n / 0x1_0000);
    assert (lo + hi)[..2] == lo && (lo + hi)[2..] == hi;
    lo + hi
  }

  function U32Be(b: seq<Byte>): (n: nat)
    requires |b| == 4
    ensures n == b[3] as int + 256 * b[2] as int + 0x1_0000 * b[1] as int + 0x100_0000 * b[0] as int
    ensures n < 0x1_0000_0000
  {
    0x1_0000 * U16Be(b[..2]) + U16Be(b[2..])
  }

  function U32BeBytes(n: nat): (b: seq<Byte>)
    requires n < 0x1_0000_0000
    ensures |b| == 4 && U32Be(b) == n
  {
    var hi, lo := U16BeBytes(n / 0x1_0000), U16BeBytes(n % 0x1_0000);
    assert (hi + lo)[..2] == hi && (hi + lo)[2..] == lo;
    hi + lo
  }

  lemma U32BeInjective(b: seq<Byte>)
    requires |b| == 4
    ensures U32BeBytes(U32Be(b)) == b
  {
    U16BeInjective(b[..2]);
    U16BeInjective(b[2..]);
    assert b == b[..2] + b[2..];
    assert U32Be(b) / 0x1_0000 == U16Be(b[..2]) && U32Be(b) % 0x1_0000 == U16Be(b[2..]);
  }

  /** The part of `s` before the first `sep`, or all of `s`. */
  function Before(s: seq<Byte>, sep: Byte): (p: seq<Byte>)
    ensures p <= s && sep !in p
    ensures |p| < |s| ==> s[|p|] == sep
  {
    if s == [] || s[0] == sep then [] else [s[0]] + Before(s[1..], sep)
  }

  lemma {:induction false} BeforeFirst(p: seq<Byte>, sep: Byte, rest: seq<Byte>)
    requires sep !in p
    ensures Before(p + [sep] + rest, sep) == p
    ensures Before(p, sep) == p
  {
    if p != [] {
      assert (p + [sep] + rest)[1..] == p[1..] + [sep] + rest;
      BeforeFirst(p[1..], sep, rest);
    }
  }

  /** Offset of the first CR LF pair, as the `windows(2).position(..)` of the decoders. */
  function FindCrlf(s: seq<Byte>): (at: Option<nat>)
    ensures at.Some? ==> at.value + 2 <= |s| && s[at.value..at.value + 2] == CRLF
    ensures at.Some? ==> forall k :: 0 <= k < at.value ==> s[k] != CR || s[k + 1] != LF
    ensures at.None? ==> forall k :: 0 <= k < |s| - 1 ==> s[k] != CR || s[k + 1] != LF
  {
    if |s| < 2 then None
    else if s[0] == CR && s[1] == LF then Some(0)
    else match FindCrlf(s[1..])
      case None => None
      case Some(k) => Some(k + 1)
  }

  lemma FindCrlfAt(line: seq<Byte>, rest: seq<Byte>)
    requires CR !in line
    ensures FindCrlf(line + CRLF + rest) == Some(|line|)
  {
    var s := line + CRLF + rest;
    assert s[|line|] == CR && s[|line| + 1] == LF;
    forall k | 0 <= k < |line|
      ensures s[k] != CR
    {
      assert s[k] == line[k];
    }
  }

  lemma FindCrlfNone(s: seq<Byte>)
    requires CR !in s || LF !in s
    ensures FindCrlf(s) == None
  {
  }

  function Concat(parts: seq<seq<Byte>>): seq<Byte> {
    if parts == [] then [] else parts[0] + Concat(parts[1..])
  }

  lemma {:induction false} ConcatSplit(a: seq<seq<Byte>>, b: seq<seq<Byte>>)
    ensures Concat(a + b) == Concat(a) + Concat(b)
  {
    if a == [] {
      assert a + b == b;
    } else {
      assert (a + b)[1..] == a[1..] + b;
      ConcatSplit(a[1..], b);
    }
  }

  // ---- Slices of slices ----

  lemma SliceFrom<T>(s: seq<T>, pos: nat, from: nat, to: nat)
    requires pos + to <= |s| && from <= to
    ensures s[pos..][from..to] == s[pos + from..pos + to]
    ensures s[pos..][from..] == s[pos + from..]
  {
  }

  lemma PrefixOfConcat<T>(a: seq<T>, b: seq<T>, n: nat)
    requires |a| <= n <= |a| + |b|
    ensures (a + b)[..n] == a + b[..n - |a|]
  {
  }

  lemma CutAround<T>(s: seq<T>, pos: nat, end: nat, next: nat)
    requires pos <= end <= next <= |s|
    ensures s[pos..] == s[pos..end] + s[end..next] + s[next..]
  {
  }
}
