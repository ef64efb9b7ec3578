/** Payload masking (src/frame.zig:59-84), section 5.3 of RFC 6455. */
module Mask {
  import opened Types
  import opened Bytes

  /** The byte-wise definition: octet i is combined with key octet (pos + i) mod 4. */
  function MaskSeq(s: seq<byte>, key: MaskingKey, pos: nat): (r: seq<byte>)
    ensures |r| == |s|
  {
    seq(|s|, i requires 0 <= i < |s| => XorByte(s[i], key[(pos + i) % 4]))
  }

  /** Bit by bit: a bit of octet i is flipped exactly where key octet (pos + i) mod 4 has a one. */
  ghost predicate Flipped(before: seq<byte>, after: seq<byte>, key: MaskingKey, pos: nat) {
    && |before| == |after|
    && forall i, b :: 0 <= i < |before| && 0 <= b < 8 ==>
         (BitOf(after[i], b) != BitOf(before[i], b) <==> BitOf(key[(pos + i) % 4], b) == 1)
  }

  lemma MaskSeqFlips(s: seq<byte>, key: MaskingKey, pos: nat)
    ensures Flipped(s, MaskSeq(s, key, pos), key, pos)
  {
    hide BitOf, XorByte;
    forall i, b | 0 <= i < |s| && 0 <= b < 8
      ensures BitOf(MaskSeq(s, key, pos)[i], b) != BitOf(s[i], b) <==> BitOf(key[(pos + i) % 4], b) == 1
    {
      XorByteBit(s[i], key[(pos + i) % 4], b);
    }
  }

  /** Applies an optional key; an unmasked payload is left alone. */
  function MaskOpt(s: seq<byte>, key: Option<MaskingKey>, pos: nat): (r: seq<byte>)
    ensures |r| == |s|
  {
    match key
    case None => s
    case Some(k) => MaskSeq(s, k, pos)
  }

  lemma MaskInvolution(s: seq<byte>, key: MaskingKey, pos: nat)
    ensures MaskSeq(MaskSeq(s, key, pos), key, pos) == s
  {
    var m := MaskSeq(s, key, pos);
    Pow2Values();
    forall i | 0 <= i < |s| ensures MaskSeq(m, key, pos)[i] == s[i] {
      XorInvolution(s[i], key[(pos + i) % 4], 8);
    }
  }

  lemma MaskOptInvolution(s: seq<byte>, key: Option<MaskingKey>, pos: nat)
    ensures MaskOpt(MaskOpt(s, key, pos), key, pos) == s
  {
    if key.Some? { MaskInvolution(s, key.value, pos); }
  }

  /** Masking distributes over a split when the second part continues at the running offset. */
  lemma MaskOptSplit(a: seq<byte>, b: seq<byte>, key: Option<MaskingKey>, pos: nat)
    ensures MaskOpt(a + b, key, pos) == MaskOpt(a, key, pos) + MaskOpt(b, key, pos + |a|)
  {
    hide XorByte;
    if key.Some? {
      var l, r := MaskSeq(a + b, key.value, pos), MaskSeq(a, key.value, pos) + MaskSeq(b, key.value, pos + |a|);
      forall i | 0 <= i < |l| ensures l[i] == r[i] {
        if i >= |a| { assert pos + i == pos + |a| + (i - |a|); }
      }
      assert l == r;
    }
  }

  /** A slice of a masked payload is the slice masked from its own offset. */
  lemma MaskOptSlice(s: seq<byte>, lo: nat, hi: nat, key: Option<MaskingKey>)
    requires lo <= hi <= |s|
    ensures MaskOpt(s, key, 0)[lo..hi] == MaskOpt(s[lo..hi], key, lo)
  {
    hide XorByte;
    assert MaskOpt(s, key, 0)[lo..hi] == MaskOpt(s[lo..hi], key, lo);
  }

  function Flatten<T>(parts: seq<seq<T>>): seq<T> {
    if parts == [] then [] else parts[0] + Flatten(parts[1..])
  }

  /** Masks every part in turn, each from the offset where the previous one stopped. */
  function MaskParts(parts: seq<seq<byte>>, key: MaskingKey, pos: nat): seq<seq<byte>> {
    if parts == [] then []
    else [MaskSeq(parts[0], key, pos)] + MaskParts(parts[1..], key, pos + |parts[0]|)
  }

  lemma {:induction false} MaskAnyPartition(parts: seq<seq<byte>>, key: MaskingKey, pos: nat)
    ensures Flatten(MaskParts(parts, key, pos)) == MaskSeq(Flatten(parts), key, pos)
  {
    if parts != [] {
      MaskAnyPartition(parts[1..], key, pos + |parts[0]|);
      MaskOptSplit(parts[0], Flatten(parts[1..]), Some(key), pos);
      assert MaskParts(parts, key, pos)[1..] == MaskParts(parts[1..], key, pos + |parts[0]|);
    }
  }

  // ---------------------------------------------------------------- wide words

  datatype Endian = Little | Big

  /** The native word the masking loop works on. */
  datatype Platform = Word32(endian: Endian) | Word64(endian: Endian) {
    function WordSize(): nat {
      if Word64? then 8 else 4
    }
  }

  /** Reads two native words, combines them, and writes the result back in native order. */
  function XorWord(p: Platform, s: seq<byte>, k: seq<byte>): (r: seq<byte>)
    requires |s| == |k| == p.WordSize()
    ensures |r| == |s|
  {
    var size := p.WordSize();
    match p.endian
    case Little => LittleEndian(Xor(FromLittleEndian(s), FromLittleEndian(k), 8 * size), size)
    case Big => BigEndian(Xor(FromBigEndian(s), FromBigEndian(k), 8 * size), size)
  }

  /** Whatever the word width and byte order, a word operation is one byte operation per octet. */
  lemma XorWordIsBytewise(p: Platform, s: seq<byte>, k: seq<byte>)
    requires |s| == |k| == p.WordSize()
    ensures XorWord(p, s, k) == XorSeq(s, k)
  {
    match p.endian
    case Little => XorWordLittle(s, k);
    case Big => XorWordBig(s, k);
  }

  /** The key rotated to start at pos, as the masking loop indexes it. */
  function Rotated(key: MaskingKey, pos: nat): MaskingKey {
    seq(4, i requires 0 <= i < 4 => key[(pos % 4 + i) % 4])
  }

  lemma RotatedAt(key: MaskingKey, pos: nat, i: nat)
    ensures Rotated(key, pos)[i % 4] == key[(pos + i) % 4]
  {
    assert (pos % 4 + i % 4) % 4 == (pos + i) % 4;
  }

  function WideKey(key: MaskingKey, size: nat): (w: seq<byte>)
    ensures |w| == size
  {
    seq(size, j requires 0 <= j < size => key[j % 4])
  }

  /** One word of the masking loop, at a word-aligned index. */
  lemma WordStep(s: seq<byte>, w: nat, key: MaskingKey, pos: nat, i: nat)
    requires i % 4 == 0 && i + w <= |s|
    ensures XorSeq(s[i..i + w], WideKey(Rotated(key, pos), w)) == MaskSeq(s, key, pos)[i..i + w]
  {
    hide XorByte;
    var chunk, wide := s[i..i + w], WideKey(Rotated(key, pos), w);
    var want := MaskSeq(s, key, pos);
    forall j | 0 <= j < w ensures XorSeq(chunk, wide)[j] == want[i + j] {
      RotatedAt(key, pos, i + j);
      assert (i + j) % 4 == j % 4;
    }
  }

  /** The buffer when its first i of |was| bytes have been masked. */
  ghost function Halfway(was: seq<byte>, rest: seq<byte>, key: MaskingKey, pos: nat, i: nat): (s: seq<byte>)
    requires i <= |was|
    ensures |s| == |was| + |rest|
  {
    MaskSeq(was, key, pos)[..i] + was[i..] + rest
  }

  /** One iteration of the word loop moves the boundary between masked and untouched bytes. */
  lemma WordLoopStep(was: seq<byte>, rest: seq<byte>, w: nat, key: MaskingKey, pos: nat, i: nat)
    requires i % 4 == 0 && i + w <= |was|
    ensures var s := Halfway(was, rest, key, pos, i);
            s[..i] + XorSeq(s[i..i + w], WideKey(Rotated(key, pos), w)) + s[i + w..]
            == Halfway(was, rest, key, pos, i + w)
  {
    hide XorByte;
    var want := MaskSeq(was, key, pos);
    var s := Halfway(was, rest, key, pos, i);
    assert s[i..i + w] == was[i..i + w];
    WordStep(was, w, key, pos, i);
    assert s[..i] == want[..i] && s[i + w..] == was[i + w..] + rest;
    assert want[..i] + want[i..i + w] == want[..i + w];
  }

  lemma HalfwayStart(was: seq<byte>, rest: seq<byte>, key: MaskingKey, pos: nat)
    ensures Halfway(was, rest, key, pos, 0) == was + rest
  {
    hide MaskSeq;
  }

  /** One iteration of the word loop. */
  method MaskWord(p: Platform, buf: array<byte>, i: nat, wideKey: seq<byte>, ghost s: seq<byte>)
    requires |wideKey| == p.WordSize() && i + |wideKey| <= buf.Length && s == buf[..]
    modifies buf
    ensures buf[..] == s[..i] + XorSeq(s[i..i + |wideKey|], wideKey) + s[i + |wideKey|..]
  {
    var chunk := buf[i..i + |wideKey|];
    XorWordIsBytewise(p, chunk, wideKey);
    CopyInto(buf, i, XorWord(p, chunk, wideKey));
  }

  /** The word loop: masks whole words from the start and reports how far it came. */
  method MaskWords(p: Platform, buf: array<byte>, n: nat, maskingKey: MaskingKey, pos: nat) returns (i: nat)
    requires n <= buf.Length
    modifies buf
    ensures i <= n < i + p.WordSize()
    ensures buf[..] == Halfway(old(buf[..n]), old(buf[n..]), maskingKey, pos, i)
  {
    hide MaskSeq, Rotated, WideKey, XorSeq, Halfway;
    ghost var was, rest := buf[..n], buf[n..];
    assert buf[..] == was + rest;
    HalfwayStart(was, rest, maskingKey, pos);
    var w := p.WordSize();
    i := 0;
    if n >= w {
      var wideKey := WideKey(Rotated(maskingKey, pos), w);
      while n - i >= w
        invariant 0 <= i <= n && i % 4 == 0
        invariant buf[..] == Halfway(was, rest, maskingKey, pos, i)
      {
        WordLoopStep(was, rest, w, maskingKey, pos, i);
        MaskWord(p, buf, i, wideKey, buf[..]);
        i := i + w;
      }
    }
  }

  /** The byte loop: finishes buf[from..n] one octet at a time. */
  method MaskTail(buf: array<byte>, from: nat, n: nat, maskingKey: MaskingKey, pos: nat, ghost want: seq<byte>)
    requires from <= n == |want| <= buf.Length
    requires forall j :: from <= j < n ==> want[j] == XorByte(buf[j], maskingKey[(pos + j) % 4])
    modifies buf
    ensures buf[..] == old(buf[..from]) + want[from..] + old(buf[n..])
  {
    hide XorByte;
    var key := Rotated(maskingKey, pos);
    var i := from;
    while i < n
      invariant from <= i <= n
      invariant buf[..] == old(buf[..from]) + want[from..i] + old(buf[i..])
    {
      RotatedAt(maskingKey, pos, i);
      assert buf[i] == old(buf[i]);
      buf[i] := XorByte(buf[i], key[i % 4]);
      i := i + 1;
    }
  }

  /** Masks buf[..n] in place: whole native words first, then the tail byte by byte. */
  method MaskInPlace(p: Platform, buf: array<byte>, n: nat, maskingKey: MaskingKey, pos: nat)
    requires n <= buf.Length
    modifies buf
    ensures buf[..] == MaskSeq(old(buf[..n]), maskingKey, pos) + old(buf[n..])
    ensures Flipped(old(buf[..n]), buf[..n], maskingKey, pos)
  {
    hide XorByte, Flipped;
    ghost var was := buf[..];
    ghost var want := MaskSeq(was[..n], maskingKey, pos);
    MaskSeqFlips(was[..n], maskingKey, pos);
    if n == 0 {
      assert was[..0] == want;
      return;
    }
    var i := MaskWords(p, buf, n, maskingKey, pos);
    ghost var mid := Halfway(was[..n], was[n..], maskingKey, pos, i);
    assert forall j :: i <= j < n ==> buf[j] == mid[j] == was[j];
    assert buf[..i] == want[..i] && buf[n..] == was[n..];
    MaskTail(buf, i, n, maskingKey, pos, want);
    assert want[..i] + want[i..] == want;
  }
}
