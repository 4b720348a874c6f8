/** The dvzip payload: zlib streams behind big-endian lengths. The zlib codec itself is a parameter. */
module Dvzip {
  import opened Wrappers
  import opened ByteSeqs

  const MAX_EXPANDED: nat := 128 * 1024 * 1024

  /** What a zlib decoder produces before the end of its stream, or before the error that stops it. */
  datatype Inflated = Inflated(output: seq<Byte>, clean: bool)

  type Deflate = seq<Byte> -> seq<Byte>
  type Inflate = seq<Byte> -> Inflated

  /** Inflating undoes deflating, and streams of archives within the limit are framable. */
  ghost predicate IsZlibPair(deflate: Deflate, inflate: Inflate) {
    && (forall x :: inflate(deflate(x)) == Inflated(x, true))
    && (forall x :: |x| <= MAX_EXPANDED ==> 0 < |deflate(x)| < 0x1_0000_0000)
  }

  // ---- Decoding ----

  /** The block payloads framed in `data`, up to an empty or a short one. */
  function Blocks(data: seq<Byte>): seq<seq<Byte>>
    decreases |data|
  {
    if |data| < 4 then []
    else
      var n := U32Be(data[..4]);
      if n == 0 || 4 + n > |data| then [] else [data[4..4 + n]] + Blocks(data[4 + n..])
  }

  /** Reading at most `limit` octets to the end: an error counts only if it comes before the limit. */
  function ReadToEnd(stream: Inflated, limit: nat): Option<seq<Byte>> {
    if |stream.output| >= limit then Some(stream.output[..limit])
    else if stream.clean then Some(stream.output)
    else None
  }

  function Frames(blocks: seq<seq<Byte>>): seq<Byte> {
    if blocks == [] then [] else Frame(blocks[0]) + Frames(blocks[1..])
  }

  /** No further block: too short for a length, or a length of zero, or one that is more than there is. */
  predicate Stops(rest: seq<Byte>) {
    |rest| < 4 || rest[..4] == [0, 0, 0, 0] || 4 + U32Be(rest[..4]) > |rest|
  }

  /** The first block of a payload that does not stop at once. */
  lemma FirstBlock(data: seq<Byte>) returns (block: seq<Byte>, more: seq<Byte>)
    requires !Stops(data)
    ensures 0 < |block| < 0x1_0000_0000 && data == Frame(block) + more && Blocks(data) == [block] + Blocks(more)
  {
    var length := data[..4];
    var n := U32Be(length);
    U32BeInjective(length);
    NotZero(length);
    hide U32Be, U32BeBytes;
    block, more := data[4..4 + n], data[4 + n..];
    assert n % 0x1_0000_0000 == n && |block| == n;
    hide Blocks;
    assert data == length + block + more;
  }

  lemma {:induction false} BlocksAre(data: seq<Byte>) returns (rest: seq<Byte>)
    ensures data == Frames(Blocks(data)) + rest && Stops(rest)
    ensures forall i :: 0 <= i < |Blocks(data)| ==> 0 < |Blocks(data)[i]| < 0x1_0000_0000
    decreases |data|
  {
    hide Blocks, Frame, Stops;
    if Stops(data) {
      rest := data;
      StopsHere(data);
      assert [] + data == data;
    } else {
      var block, more := FirstBlock(data);
      FrameLength(block);
      rest := BlocksAre(more);
      var all := Blocks(data);
      assert all[0] == block && all[1..] == Blocks(more);
      assert data == Frame(block) + (Frames(Blocks(more)) + rest);
      assert Frame(block) + (Frames(Blocks(more)) + rest) == Frame(block) + Frames(Blocks(more)) + rest;
    }
  }

  lemma NotZero(b: seq<Byte>)
    requires |b| == 4
    ensures U32Be(b) == 0 <==> b == [0, 0, 0, 0]
  {
  }

  lemma StopsHere(rest: seq<Byte>)
    requires Stops(rest)
    ensures Blocks(rest) == []
  {
    if |rest| >= 4 {
      NotZero(rest[..4]);
    }
    hide U32Be;
  }

  /** The blocks of a payload are those in front of where it stops, whatever is after that. */
  lemma {:induction false} BlocksIff(blocks: seq<seq<Byte>>, rest: seq<Byte>)
    requires Stops(rest) && forall i :: 0 <= i < |blocks| ==> 0 < |blocks[i]| < 0x1_0000_0000
    ensures Blocks(Frames(blocks) + rest) == blocks
    decreases |blocks|
  {
    hide Blocks, Frame, Stops;
    if blocks == [] {
      StopsHere(rest);
      assert [] + rest == rest;
    } else {
      BlocksIff(blocks[1..], rest);
      BlocksOfFrame(blocks[0], Frames(blocks[1..]) + rest);
      assert Frames(blocks) + rest == Frame(blocks[0]) + (Frames(blocks[1..]) + rest);
    }
  }

  /** Inflating the blocks one after another onto `out`; malformed blocks are skipped, too much is nothing. */
  function Expand(blocks: seq<seq<Byte>>, inflate: Inflate, out: seq<Byte>): (r: seq<Byte>)
    requires |out| <= MAX_EXPANDED
    ensures |r| <= MAX_EXPANDED
  {
    if blocks == [] then out
    else match ReadToEnd(inflate(blocks[0]), MAX_EXPANDED - |out| + 1)
      case None => Expand(blocks[1..], inflate, out)
      case Some(buf) =>
        if |out| + |buf| <= MAX_EXPANDED then Expand(blocks[1..], inflate, out + buf) else []
  }

  lemma BlocksAt(data: seq<Byte>, pos: nat)
    requires pos + 4 <= |data|
    ensures var n := U32Be(data[pos..pos + 4]);
            Blocks(data[pos..]) ==
            if n == 0 || pos + 4 + n > |data| then [] else [data[pos + 4..pos + 4 + n]] + Blocks(data[pos + 4 + n..])
  {
    hide U32Be;
    var unread := data[pos..];
    assert unread[..4] == data[pos..pos + 4];
    var n := U32Be(unread[..4]);
    if pos + 4 + n <= |data| {
      SliceFrom(data, pos, 4, 4 + n);
      SliceFrom(data, pos, 4 + n, 4 + n);
    }
  }

  lemma ExpandStep(block: seq<Byte>, rest: seq<seq<Byte>>, inflate: Inflate, out: seq<Byte>)
    requires |out| <= MAX_EXPANDED
    ensures Expand([block] + rest, inflate, out) ==
            match ReadToEnd(inflate(block), MAX_EXPANDED - |out| + 1)
            case None => Expand(rest, inflate, out)
            case Some(buf) => if |out| + |buf| <= MAX_EXPANDED then Expand(rest, inflate, out + buf) else []
  {
    hide ReadToEnd;
    assert ([block] + rest)[1..] == rest;
  }

  method DvzipToCpio(data: seq<Byte>, inflate: Inflate) returns (out: seq<Byte>)
    ensures out == Expand(Blocks(data), inflate, [])
  {
    hide Blocks, U32Be, ReadToEnd, Expand;
    out := [];
    var pos := 0;
    assert data[0..] == data;
    while pos + 4 <= |data|
      invariant pos <= |data| && |out| <= MAX_EXPANDED
      invariant Expand(Blocks(data), inflate, []) == Expand(Blocks(data[pos..]), inflate, out)
    {
      BlocksAt(data, pos);
      var blockLen := U32Be(data[pos..pos + 4]);
      pos := pos + 4;
      if blockLen == 0 || pos + blockLen > |data| {
        ExpandNothing(inflate, out);
        return;
      }
      var raw := data[pos..pos + blockLen];
      pos := pos + blockLen;
      ExpandStep(raw, Blocks(data[pos..]), inflate, out);
      var buf := ReadToEnd(inflate(raw), MAX_EXPANDED - |out| + 1);
      if buf.Some? {
        if |out| + |buf.value| > MAX_EXPANDED {
          return [];
        }
        out := out + buf.value;
      }
    }
    BlocksEnd(data[pos..]);
    ExpandNothing(inflate, out);
  }

  lemma ExpandNothing(inflate: Inflate, out: seq<Byte>)
    requires |out| <= MAX_EXPANDED
    ensures Expand([], inflate, out) == out
  {
  }

  lemma BlocksEnd(data: seq<Byte>)
    requires |data| < 4
    ensures Blocks(data) == []
  {
  }

  function Outputs(blocks: seq<seq<Byte>>, inflate: Inflate): seq<seq<Byte>> {
    seq(|blocks|, i requires 0 <= i < |blocks| => inflate(blocks[i]).output)
  }

  /** With no malformed block the result is all the output, or nothing when it is over the limit. */
  lemma {:induction false} ExpandClean(blocks: seq<seq<Byte>>, inflate: Inflate, out: seq<Byte>)
    requires |out| <= MAX_EXPANDED
    requires forall i :: 0 <= i < |blocks| ==> inflate(blocks[i]).clean
    ensures var all := out + Concat(Outputs(blocks, inflate));
            Expand(blocks, inflate, out) == if |all| <= 134_217_728 then all else []
    decreases |blocks|
  {
    if blocks == [] {
      assert out + [] == out;
    } else {
      var o := inflate(blocks[0]).output;
      var tail := Concat(Outputs(blocks[1..], inflate));
      assert Outputs(blocks, inflate) == [o] + Outputs(blocks[1..], inflate);
      assert Outputs(blocks, inflate)[1..] == Outputs(blocks[1..], inflate);
      assert out + (o + tail) == out + o + tail;
      if |out| + |o| <= MAX_EXPANDED {
        ExpandClean(blocks[1..], inflate, out + o);
      }
    }
  }

  /**
   * A damaged block is skipped, with all it gave before the damage, unless the output would have been over the
   * limit before that: then there is none at all.
   */
  lemma {:induction false} DamagedIsSkipped(
    a: seq<seq<Byte>>, block: seq<Byte>, b: seq<seq<Byte>>, inflate: Inflate, out: seq<Byte>)
    requires |out| <= MAX_EXPANDED && !inflate(block).clean
    requires forall i :: 0 <= i < |a| ==> inflate(a[i]).clean
    ensures var all := out + Concat(Outputs(a, inflate));
            Expand(a + ([block] + b), inflate, out) ==
            if |all| + |inflate(block).output| <= 134_217_728 then Expand(a + b, inflate, out) else []
    decreases |a|
  {
    hide Expand;
    if a == [] {
      assert a + ([block] + b) == [block] + b && a + b == b;
      ExpandStep(block, b, inflate, out);
    } else {
      var o, tail := inflate(a[0]).output, Concat(Outputs(a[1..], inflate));
      assert Outputs(a, inflate)[0] == o && Outputs(a, inflate)[1..] == Outputs(a[1..], inflate);
      assert a + ([block] + b) == [a[0]] + (a[1..] + ([block] + b)) && a + b == [a[0]] + (a[1..] + b);
      ExpandStep(a[0], a[1..] + ([block] + b), inflate, out);
      ExpandStep(a[0], a[1..] + b, inflate, out);
      assert out + (o + tail) == out + o + tail;
      if |out| + |o| <= MAX_EXPANDED {
        DamagedIsSkipped(a[1..], block, b, inflate, out + o);
      }
    }
  }

  // ---- Encoding ----

  /** A block behind its length; the 32-bit cast drops what does not fit. */
  function Frame(block: seq<Byte>): seq<Byte> {
    U32BeBytes(|block| % 0x1_0000_0000) + block
  }

  /** `count` contiguous slices of `block` octets, the last one taking what is left. */
  function SlicesFrom(s: seq<Byte>, count: nat, block: nat): seq<seq<Byte>>
    requires count >= 1 && count * block <= |s|
    decreases count
  {
    if count == 1 then [s]
    else
      assert (count - 1) * block == count * block - block;
      [s[..block]] + SlicesFrom(s[block..], count - 1, block)
  }

  function Clamp(n: nat, max: nat): (c: nat)
    requires max >= 1
    ensures 1 <= c <= max
  {
    if n < 1 then 1 else if n > max then max else n
  }

  function Slices(cpio: seq<Byte>, numBlocks: nat): seq<seq<Byte>> {
    if cpio == [] then [[]]
    else
      var n := Clamp(numBlocks, |cpio|);
      assert n * (|cpio| / n) <= |cpio|;
      SlicesFrom(cpio, n, |cpio| / n)
  }

  function FrameAll(slices: seq<seq<Byte>>, deflate: Deflate): seq<Byte> {
    if slices == [] then [] else Frame(deflate(slices[0])) + FrameAll(slices[1..], deflate)
  }

  /** One step of the encoder over what is left of the archive. */
  lemma FrameStep(s: seq<Byte>, count: nat, block: nat, deflate: Deflate)
    requires count >= 1 && count * block <= |s|
    ensures count == 1 ==> FrameAll(SlicesFrom(s, count, block), deflate) == Frame(deflate(s))
    ensures count > 1 ==>
              && block <= |s| && (count - 1) * block <= |s[block..]|
              && FrameAll(SlicesFrom(s, count, block), deflate) ==
                 Frame(deflate(s[..block])) + FrameAll(SlicesFrom(s[block..], count - 1, block), deflate)
  {
    hide Frame;
    var slices := SlicesFrom(s, count, block);
    if count == 1 {
      assert slices == [s] && slices[1..] == [];
      assert Frame(deflate(s)) + [] == Frame(deflate(s));
    } else {
      assert (count - 1) * block == count * block - block;
      assert (count - 1) * block >= 0;
      assert slices[1..] == SlicesFrom(s[block..], count - 1, block);
    }
  }

  method CpioToDvzipBlocks(cpio: seq<Byte>, numBlocks: nat, deflate: Deflate) returns (out: seq<Byte>)
    ensures out == FrameAll(Slices(cpio, numBlocks), deflate)
  {
    hide FrameAll, Frame, SlicesFrom;
    if cpio == [] {
      FrameOne([], deflate);
      return Frame(deflate([]));
    }
    var n := Clamp(numBlocks, |cpio|);
    var block := |cpio| / n;
    assert n * block <= |cpio|;
    out := [];
    var pos := 0;
    assert cpio[0..] == cpio;
    ghost var left := n;
    for i := 0 to n
      invariant left == n - i && pos <= |cpio|
      invariant i < n ==> left * block <= |cpio[pos..]|
      invariant i < n ==>
                  FrameAll(Slices(cpio, numBlocks), deflate)
                    == out + FrameAll(SlicesFrom(cpio[pos..], left, block), deflate)
      invariant i == n ==> FrameAll(Slices(cpio, numBlocks), deflate) == out
    {
      FrameStep(cpio[pos..], left, block, deflate);
      var end := if i + 1 == n then |cpio| else pos + block;
      var slice := cpio[pos..end];
      if i + 1 < n {
        assert cpio[pos..][..block] == slice && cpio[pos..][block..] == cpio[end..];
        ghost var tail := FrameAll(SlicesFrom(cpio[end..], left - 1, block), deflate);
        assert out + (Frame(deflate(slice)) + tail) == out + Frame(deflate(slice)) + tail;
      } else {
        assert cpio[pos..] == slice;
      }
      out := out + Frame(deflate(slice));
      pos := end;
      left := left - 1;
    }
  }

  lemma FrameOne(slice: seq<Byte>, deflate: Deflate)
    ensures FrameAll([slice], deflate) == Frame(deflate(slice))
  {
    assert [slice][1..] == [];
  }

  lemma {:induction false} SlicesCover(s: seq<Byte>, count: nat, block: nat)
    requires count >= 1 && count * block <= |s|
    ensures Concat(SlicesFrom(s, count, block)) == s
    ensures forall t :: t in SlicesFrom(s, count, block) ==> |t| <= |s|
    decreases count
  {
    var slices := SlicesFrom(s, count, block);
    if count == 1 {
      assert slices[1..] == [];
    } else {
      assert (count - 1) * block == count * block - block && (count - 1) * block >= 0;
      SlicesCover(s[block..], count - 1, block);
      var rest := SlicesFrom(s[block..], count - 1, block);
      assert slices == [s[..block]] + rest && slices[1..] == rest;
      assert s[..block] + s[block..] == s;
    }
  }

  lemma {:induction false} SlicesOf(s: seq<Byte>, count: nat, block: nat)
    requires count >= 1 && count * block <= |s|
    ensures |SlicesFrom(s, count, block)| == count
    ensures forall i :: 0 <= i < count - 1 ==> |SlicesFrom(s, count, block)[i]| == block
    decreases count
  {
    if count > 1 {
      assert (count - 1) * block == count * block - block && (count - 1) * block >= 0;
      SlicesOf(s[block..], count - 1, block);
    }
  }

  /** There are as many blocks as asked for, but at least one and at most one an octet, all but the last alike. */
  lemma SlicesAre(cpio: seq<Byte>, numBlocks: nat)
    requires cpio != []
    ensures var slices, n := Slices(cpio, numBlocks), if numBlocks == 0 then 1 else Min(numBlocks, |cpio|);
            |slices| == n && forall i :: 0 <= i < n - 1 ==> |slices[i]| == |cpio| / n
  {
    hide SlicesFrom;
    var n := Clamp(numBlocks, |cpio|);
    assert n * (|cpio| / n) <= |cpio|;
    SlicesOf(cpio, n, |cpio| / n);
  }

  lemma BlocksOfFrame(block: seq<Byte>, rest: seq<Byte>)
    requires 0 < |block| < 0x1_0000_0000
    ensures Blocks(Frame(block) + rest) == [block] + Blocks(rest)
  {
    var data := Frame(block) + rest;
    assert data[..4] == U32BeBytes(|block|);
    assert data[4..4 + |block|] == block && data[4 + |block|..] == rest;
  }

  function Deflated(slices: seq<seq<Byte>>, deflate: Deflate): seq<seq<Byte>> {
    seq(|slices|, i requires 0 <= i < |slices| => deflate(slices[i]))
  }

  lemma {:induction false} BlocksOfFrames(slices: seq<seq<Byte>>, deflate: Deflate)
    requires forall i :: 0 <= i < |slices| ==> 0 < |deflate(slices[i])| < 0x1_0000_0000
    ensures Blocks(FrameAll(slices, deflate)) == Deflated(slices, deflate)
    decreases |slices|
  {
    if slices != [] {
      BlocksOfFrames(slices[1..], deflate);
      BlocksOfFrame(deflate(slices[0]), FrameAll(slices[1..], deflate));
      assert Deflated(slices, deflate) == [deflate(slices[0])] + Deflated(slices[1..], deflate);
    }
  }

  /** Decoding undoes encoding for every block count. */
  lemma DvzipRoundTrip(cpio: seq<Byte>, numBlocks: nat, deflate: Deflate, inflate: Inflate)
    requires IsZlibPair(deflate, inflate) && |cpio| <= 134_217_728
    ensures Expand(Blocks(FrameAll(Slices(cpio, numBlocks), deflate)), inflate, []) == cpio
  {
    hide Blocks, Expand, FrameAll, Slices, Concat;
    var slices := Slices(cpio, numBlocks);
    SlicesWhole(cpio, numBlocks);
    BlocksOfFrames(slices, deflate);
    var blocks := Deflated(slices, deflate);
    assert Outputs(blocks, inflate) == slices;
    ExpandClean(blocks, inflate, []);
    assert [] + cpio == cpio;
  }

  lemma SlicesWhole(cpio: seq<Byte>, numBlocks: nat)
    ensures Concat(Slices(cpio, numBlocks)) == cpio
    ensures forall t :: t in Slices(cpio, numBlocks) ==> |t| <= |cpio|
  {
    if cpio == [] {
      assert Concat([[]]) == [] + Concat([]);
    } else {
      var n := Clamp(numBlocks, |cpio|);
      assert n * (|cpio| / n) <= |cpio|;
      SlicesCover(cpio, n, |cpio| / n);
    }
  }

  // ---- Truncated payloads ----

  lemma BlocksOfCutFrame(block: seq<Byte>, n: nat)
    requires 0 < |block| < 0x1_0000_0000 && n < 4 + |block|
    ensures Blocks(Frame(block)[..n]) == []
  {
    hide U32Be, U32BeBytes;
    var cut := Frame(block)[..n];
    if n >= 4 {
      assert cut[..4] == U32BeBytes(|block|);
      assert U32Be(cut[..4]) == |block|;
    }
  }

  /** Of a payload cut short only whole blocks are left, and not all of them. */
  lemma {:induction false} BlocksOfCut(slices: seq<seq<Byte>>, deflate: Deflate, n: nat) returns (k: nat)
    requires forall i :: 0 <= i < |slices| ==> 0 < |deflate(slices[i])| < 0x1_0000_0000
    requires n < |FrameAll(slices, deflate)|
    ensures k < |slices| && Blocks(FrameAll(slices, deflate)[..n]) == Deflated(slices[..k], deflate)
    decreases |slices|
  {
    hide Blocks, Frame;
    var block := deflate(slices[0]);
    var rest := FrameAll(slices[1..], deflate);
    FrameLength(block);
    if n < 4 + |block| {
      assert FrameAll(slices, deflate)[..n] == Frame(block)[..n];
      BlocksOfCutFrame(block, n);
      k := 0;
    } else {
      PrefixOfConcat(Frame(block), rest, n);
      k := BlocksOfCut(slices[1..], deflate, n - 4 - |block|);
      BlocksOfFrame(block, rest[..n - 4 - |block|]);
      k := k + 1;
      assert Deflated(slices[..k], deflate) == [block] + Deflated(slices[1..][..k - 1], deflate);
    }
  }

  lemma FrameLength(block: seq<Byte>)
    ensures |Frame(block)| == 4 + |block|
  {
  }

  lemma {:induction false} SlicesNonempty(s: seq<Byte>, count: nat, block: nat)
    requires count >= 1 && block >= 1 && count * block <= |s|
    ensures forall t :: t in SlicesFrom(s, count, block) ==> t != []
    decreases count
  {
    if count > 1 {
      assert (count - 1) * block == count * block - block && (count - 1) * block >= 0;
      SlicesNonempty(s[block..], count - 1, block);
    } else {
      assert 1 * block == block;
    }
  }

  lemma AllSlicesNonempty(cpio: seq<Byte>, numBlocks: nat)
    requires cpio != []
    ensures forall t :: t in Slices(cpio, numBlocks) ==> t != []
  {
    hide SlicesFrom;
    var count := Clamp(numBlocks, |cpio|);
    assert count * (|cpio| / count) <= |cpio| && |cpio| / count >= 1;
    SlicesNonempty(cpio, count, |cpio| / count);
  }

  lemma ConcatProperPrefix(parts: seq<seq<Byte>>, k: nat)
    requires k < |parts| && forall t :: t in parts ==> t != []
    ensures Concat(parts[..k]) < Concat(parts)
  {
    var kept, lost := parts[..k], parts[k..];
    assert parts == kept + lost;
    ConcatSplit(kept, lost);
    assert lost[0] in parts;
    assert Concat(lost) == lost[0] + Concat(lost[1..]);
  }

  /** A truncated payload expands to a proper prefix of what it carried. */
  lemma CutExpandsToPrefix(cpio: seq<Byte>, numBlocks: nat, deflate: Deflate, inflate: Inflate, n: nat) returns (m: nat)
    requires IsZlibPair(deflate, inflate) && 0 < |cpio| <= MAX_EXPANDED
    requires n < |FrameAll(Slices(cpio, numBlocks), deflate)|
    ensures m < |cpio|
    ensures Expand(Blocks(FrameAll(Slices(cpio, numBlocks), deflate)[..n]), inflate, []) == cpio[..m]
  {
    hide Blocks, Expand, FrameAll, Slices, Concat;
    var slices := Slices(cpio, numBlocks);
    SlicesWhole(cpio, numBlocks);
    AllSlicesNonempty(cpio, numBlocks);
    var k := BlocksOfCut(slices, deflate, n);
    var kept := slices[..k];
    ConcatProperPrefix(slices, k);
    m := |Concat(kept)|;
    assert Outputs(Deflated(kept, deflate), inflate) == kept;
    ExpandClean(Deflated(kept, deflate), inflate, []);
    assert [] + Concat(kept) == Concat(kept);
  }
}
