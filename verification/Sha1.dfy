/** SHA-1: the array code of client/src/crypto/sha1.c against the definition in RFC 3174. */
module Sha1 {
  import opened Bytes

  /** The circular left shift S^n of section 3 of RFC 3174. */
  function Rotl32(v: word, n: nat): word
    requires 0 < n < 32
  {
    (v << n) | (v >> (32 - n))
  }

  function AllBe32(words: seq<word>): (s: bytes)
    ensures |s| == 4 * |words|
  {
    if words == [] then [] else AllBe32(words[..|words| - 1]) + Be32(words[|words| - 1])
  }

  // Section 4: padding.

  const LENGTH_MODULUS: nat := UINT64_MODULUS

  function Zeros(k: nat): (s: bytes)
    ensures |s| == k
  {
    seq(k, _ => 0)
  }

  function ZeroCount(len: nat): (k: nat)
    ensures k < 64
  {
    (119 - len % 64) % 64
  }

  /** One set bit, the fewest zeros that fill the last block, and the length in bits as 64 bits. */
  function Pad(data: bytes): bytes {
    data + [0x80] + Zeros(ZeroCount(|data|)) + BigEndian(8 * |data| % LENGTH_MODULUS, 8)
  }

  function PaddedLength(len: nat): nat {
    ((len + 8) / 64 + 1) * 64
  }

  /** The source's length is the least whole number of blocks that holds the message and nine more bytes. */
  lemma PaddedLengthIsLeast(data: bytes, blocks: nat)
    ensures |Pad(data)| == PaddedLength(|data|) && PaddedLength(|data|) % 64 == 0
    ensures |data| + 9 <= 64 * blocks <==> PaddedLength(|data|) <= 64 * blocks
  {
    hide ZeroCount, BigEndian, PaddedLength;
    PaddingFits(|data|);
    LeastBlocks(|data|, blocks);
  }

  lemma LeastBlocks(len: nat, blocks: nat)
    ensures PaddedLength(len) % 64 == 0
    ensures len + 9 <= 64 * blocks <==> PaddedLength(len) <= 64 * blocks
  {
    var q := (len + 8) / 64;
    assert 64 * q <= len + 8 < 64 * q + 64;
    assert PaddedLength(len) == 64 * (q + 1);
  }

  lemma PaddingFits(len: nat)
    ensures len + 1 + ZeroCount(len) + 8 == PaddedLength(len)
  {
    var q, r := len / 64, len % 64;
    assert len == 64 * q + r;
    if r < 56 {
      assert (len + 8) / 64 == q && ZeroCount(len) == 55 - r;
    } else {
      assert (len + 8) / 64 == q + 1 && ZeroCount(len) == 119 - r;
    }
  }

  lemma PadParts(data: bytes)
    ensures |Pad(data)| >= |data| + 9
    ensures Pad(data)[..|data|] == data
    ensures Pad(data)[|Pad(data)| - 8..] == BigEndian(8 * |data| % LENGTH_MODULUS, 8)
  {
  }

  /** Different messages are hashed as different padded texts. */
  lemma PadInjective(a: bytes, b: bytes)
    requires 8 * |a| < LENGTH_MODULUS && 8 * |b| < LENGTH_MODULUS
    requires Pad(a) == Pad(b)
    ensures a == b
  {
    hide Pad, BigEndian, FromBigEndian;
    PadParts(a);
    PadParts(b);
    Pow256Values();
    BigEndianRoundTrip(8 * |a|, 8);
    BigEndianRoundTrip(8 * |b|, 8);
  }

  // Sections 5 and 6.1: functions, constants and the digest.

  function Ch(b: word, c: word, d: word): word { (b & c) | (!b & d) }

  function Parity(b: word, c: word, d: word): word { b ^ c ^ d }

  function Maj(b: word, c: word, d: word): word { (b & c) | (b & d) | (c & d) }

  function F(t: nat, b: word, c: word, d: word): word {
    if t < 20 then Ch(b, c, d) else if t < 40 then Parity(b, c, d) else if t < 60 then Maj(b, c, d) else Parity(b, c, d)
  }

  function K(t: nat): word {
    if t < 20 then 0x5A827999 else if t < 40 then 0x6ED9EBA1 else if t < 60 then 0x8F1BBCDC else 0xCA62C1D6
  }

  function Spread(w3: word, w8: word, w14: word, w16: word): word {
    Rotl32(w3 ^ w8 ^ w14 ^ w16, 1)
  }

  /** Word t of the schedule of the block that starts at blk. */
  function Schedule(m: bytes, blk: nat, t: nat): word
    requires blk + 64 <= |m|
    decreases t
  {
    if t < 16 then LoadBe32(m, blk + 4 * t)
    else Spread(Schedule(m, blk, t - 3), Schedule(m, blk, t - 8), Schedule(m, blk, t - 14), Schedule(m, blk, t - 16))
  }

  /** Addition modulo 2^32. */
  function Add(x: word, y: word): word { x + y }

  function Mix(a: word, f: word, e: word, k: word, w: word): word {
    Rotl32(a, 5) + f + e + k + w
  }

  datatype State = State(a: word, b: word, c: word, d: word, e: word) {
    function Plus(s: State): State {
      State(Add(a, s.a), Add(b, s.b), Add(c, s.c), Add(d, s.d), Add(e, s.e))
    }

    function Step(t: nat, w: word): State {
      State(Mix(a, F(t, b, c, d), e, K(t), w), a, Rotl32(b, 30), c, d)
    }

    function Bytes(): (s: bytes)
      ensures |s| == 20
    {
      AllBe32([a, b, c, d, e])
    }
  }

  const INITIAL: State := State(0x67452301, 0xEFCDAB89, 0x98BADCFE, 0x10325476, 0xC3D2E1F0)

  /** The state after t of the eighty steps on one block. */
  function Steps(m: bytes, blk: nat, start: State, t: nat): State
    requires blk + 64 <= |m|
  {
    if t == 0 then start else Steps(m, blk, start, t - 1).Step(t - 1, Schedule(m, blk, t - 1))
  }

  /** The chaining value after n blocks. */
  function Chain(m: bytes, n: nat): State
    requires 64 * n <= |m|
  {
    if n == 0 then INITIAL else
      var before := Chain(m, n - 1);
      before.Plus(Steps(m, 64 * (n - 1), before, 80))
  }

  function Digest(data: bytes): (out: bytes)
    ensures |out| == 20
  {
    var m := Pad(data);
    Chain(m, |m| / 64).Bytes()
  }

  // The array code.

  method PadMessage(data: bytes) returns (padded: array<byte>)
    ensures fresh(padded) && padded[..] == Pad(data)
  {
    var len := |data|;
    var paddedLen := ((len + 8) / 64 + 1) * 64;
    PaddedLengthIsLeast(data, 0);
    padded := new byte[paddedLen](_ => 0);
    forall i | 0 <= i < len {
      padded[i] := data[i];
    }
    padded[len] := 0x80;
    assert padded[..paddedLen - 8] == data + [0x80] + Zeros(ZeroCount(len));
    PutBitLength(padded, 8 * len % LENGTH_MODULUS);
    assert padded[..] == padded[..paddedLen - 8] + padded[paddedLen - 8..];
  }

  /** The length in bits, written from the top byte down at the end of the last block. */
  method PutBitLength(padded: array<byte>, bitLen: nat)
    requires padded.Length >= 8 && bitLen < LENGTH_MODULUS
    modifies padded
    ensures padded[..padded.Length - 8] == old(padded[..padded.Length - 8])
    ensures padded[padded.Length - 8..] == BigEndian(bitLen, 8)
  {
    hide BigEndian;
    var base := padded.Length - 8;
    ShiftedOut(bitLen, 8) by { Pow256Values(); }
    assert BigEndian(0, 0) == [];
    var i := 8;
    while i > 0
      invariant 0 <= i <= 8
      invariant padded[..base] == old(padded[..base])
      invariant padded[base..base + 8 - i] == BigEndian(ShiftRight(bitLen, i), 8 - i)
    {
      i := i - 1;
      BigEndianStep(bitLen, 7 - i, i);
      ghost var before := padded[base..base + 7 - i];
      padded[base + 7 - i] := Byte(ShiftRight(bitLen, i));
      assert padded[base..base + 8 - i] == before + [Byte(ShiftRight(bitLen, i))];
    }
  }

  lemma LoadSlice(m: bytes, i: nat)
    requires i + 4 <= |m|
    ensures LoadBe32(m[i..i + 4], 0) == LoadBe32(m, i)
  {
  }

  method FillSchedule(padded: array<byte>, blk: nat, W: array<word>)
    requires blk + 64 <= padded.Length && W.Length == 80
    modifies W
    ensures forall t :: 0 <= t < 80 ==> W[t] == Schedule(padded[..], blk, t)
  {
    hide LoadBe32, Spread;
    ghost var m := padded[..];
    for t := 0 to 16
      modifies W
      invariant forall k :: 0 <= k < t ==> W[k] == Schedule(m, blk, k)
    {
      LoadSlice(m, blk + 4 * t);
      assert padded[blk + 4 * t..blk + 4 * t + 4] == m[blk + 4 * t..blk + 4 * t + 4];
      W[t] := LoadBe32(padded[blk + 4 * t..blk + 4 * t + 4], 0);
    }
    for t := 16 to 80
      modifies W
      invariant forall k :: 0 <= k < t ==> W[k] == Schedule(m, blk, k)
    {
      W[t] := Spread(W[t - 3], W[t - 8], W[t - 14], W[t - 16]);
    }
  }

  function StateOf(h: array<word>): State
    requires h.Length == 5
    reads h
  {
    State(h[0], h[1], h[2], h[3], h[4])
  }

  method Choose(t: nat, b: word, c: word, d: word) returns (f: word, k: word)
    ensures f == F(t, b, c, d) && k == K(t)
  {
    hide Ch, Parity, Maj;
    if t < 20 {
      f, k := Ch(b, c, d), 0x5A827999;
    } else if t < 40 {
      f, k := Parity(b, c, d), 0x6ED9EBA1;
    } else if t < 60 {
      f, k := Maj(b, c, d), 0x8F1BBCDC;
    } else {
      f, k := Parity(b, c, d), 0xCA62C1D6;
    }
  }

  /** The eighty steps on the working variables, without the final addition. */
  method RunSteps(W: array<word>, start: State, ghost m: bytes, ghost blk: nat) returns (s: State)
    requires blk + 64 <= |m| && W.Length == 80
    requires forall t :: 0 <= t < 80 ==> W[t] == Schedule(m, blk, t)
    ensures s == Steps(m, blk, start, 80)
  {
    hide F, K, Mix, Rotl32, Schedule;
    var a, b, c, d, e := start.a, start.b, start.c, start.d, start.e;
    for t := 0 to 80
      invariant State(a, b, c, d, e) == Steps(m, blk, start, t)
    {
      var f, k := Choose(t, b, c, d);
      var tmp := Mix(a, f, e, k, W[t]);
      e := d;
      d := c;
      c := Rotl32(b, 30);
      b := a;
      a := tmp;
    }
    s := State(a, b, c, d, e);
  }

  method Compress(padded: array<byte>, blk: nat, h: array<word>)
    requires blk + 64 <= padded.Length && h.Length == 5
    modifies h
    ensures StateOf(h) == old(StateOf(h)).Plus(Steps(padded[..], blk, old(StateOf(h)), 80))
  {
    hide Steps, Schedule, Add;
    var W := new word[80];
    FillSchedule(padded, blk, W);
    var s := RunSteps(W, StateOf(h), padded[..], blk);
    h[0], h[1], h[2], h[3], h[4] := Add(h[0], s.a), Add(h[1], s.b), Add(h[2], s.c), Add(h[3], s.d), Add(h[4], s.e);
  }

  /** sha1_compute: the in-place code computes the digest of RFC 3174 for every input. */
  method Compute(data: bytes, out: array<byte>)
    requires out.Length == 20
    modifies out
    ensures out[..] == Digest(data)
  {
    var h := new word[5];
    h[0], h[1], h[2], h[3], h[4] := 0x67452301, 0xEFCDAB89, 0x98BADCFE, 0x10325476, 0xC3D2E1F0;
    var padded := PadMessage(data);
    ghost var m := Pad(data);
    PaddedLengthIsLeast(data, 0);
    ghost var n: nat := 0;
    var blk := 0;
    while blk < padded.Length
      modifies h
      invariant blk == 64 * n && blk <= padded.Length && padded[..] == m
      invariant StateOf(h) == Chain(m, n)
    {
      Compress(padded, blk, h);
      n := n + 1;
      blk := blk + 64;
    }
    StoreDigest(h, out);
  }

  method StoreDigest(h: array<word>, out: array<byte>)
    requires h.Length == 5 && out.Length == 20
    modifies out
    ensures out[..] == StateOf(h).Bytes()
  {
    hide Be32;
    for i := 0 to 5
      modifies out
      invariant out[..4 * i] == AllBe32(h[..i])
    {
      var s := Be32(h[i]);
      ghost var before := out[..4 * i];
      out[4 * i], out[4 * i + 1], out[4 * i + 2], out[4 * i + 3] := s[0], s[1], s[2], s[3];
      assert h[..i + 1][..i] == h[..i];
      assert out[..4 * (i + 1)] == before + s;
    }
    assert h[..5] == [h[0], h[1], h[2], h[3], h[4]];
    assert out[..20] == out[..];
  }
}
