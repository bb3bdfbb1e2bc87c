/** Bytes, big-endian integers and the XOR mask of section 5.3 of RFC 6455. */
module Bytes {
  type byte = bv8
  type bytes = seq<byte>
  type word = bv32

  const UINT32_MAX: nat := 0xFFFF_FFFF
  const UINT64_MODULUS: nat := 0x1_0000_0000_0000_0000

  datatype Option<+T> = None | Some(value: T)

  function Min(a: nat, b: nat): (m: nat)
    ensures m <= a && m <= b && (m == a || m == b)
  {
    if a <= b then a else b
  }

  /** The first n elements of s, or all of it when it is shorter. */
  function Take<T>(s: seq<T>, n: nat): seq<T> {
    s[..Min(n, |s|)]
  }

  lemma TakeAll<T>(s: seq<T>, room: nat)
    ensures |s| <= room ==> Take(s, room) == s
  {
  }

  lemma TakeNothing<T>(s: seq<T>)
    ensures Take(s, 0) == []
  {
  }

  /** Sending a and then b over a connection that carries n elements sends that much of a + b. */
  lemma TakeConcat<T>(a: seq<T>, b: seq<T>, n: nat)
    ensures Take(a, n) + Take(b, n - Min(|a|, n)) == Take(a + b, n)
  {
  }

  /** C's cast to uint8_t. */
  function Byte(n: nat): byte {
    (n % 256) as byte
  }

  lemma ByteValue(n: nat)
    requires n < 256
    ensures Byte(n) as int == n
  {
    assert n % 256 == n;
  }

  function Pow256(k: nat): (p: nat)
    ensures p > 0
  {
    if k == 0 then 1 else 256 * Pow256(k - 1)
  }

  lemma Pow256Values()
    ensures Pow256(2) == 65536
    ensures Pow256(8) == 0x1_0000_0000_0000_0000
  {
    assert Pow256(4) == 0x1_0000_0000;
    assert Pow256(6) == 0x1_0000_0000_0000;
  }

  /** The k low bytes of n, most significant byte first. */
  function BigEndian(n: nat, k: nat): (s: bytes)
    ensures |s| == k
  {
    if k == 0 then [] else BigEndian(n / 256, k - 1) + [Byte(n)]
  }

  function FromBigEndian(s: bytes): (n: nat)
    ensures n < Pow256(|s|)
  {
    if s == [] then 0 else 256 * FromBigEndian(s[..|s| - 1]) + s[|s| - 1] as int
  }

  lemma {:induction false} BigEndianRoundTrip(n: nat, k: nat)
    requires n < Pow256(k)
    ensures FromBigEndian(BigEndian(n, k)) == n
  {
    if k > 0 {
      BigEndianRoundTrip(n / 256, k - 1);
      var s := BigEndian(n, k);
      assert s[..|s| - 1] == BigEndian(n / 256, k - 1);
      ByteValue(n % 256);
    }
  }

  lemma BigEndianUnfold(m: nat, k: nat)
    ensures BigEndian(m, k + 1) == BigEndian(m / 256, k) + [Byte(m)]
  {
  }

  /** n shifted right by i whole bytes. */
  function ShiftRight(n: nat, i: nat): nat {
    if i == 0 then n else ShiftRight(n, i - 1) / 256
  }

  /** Emitting the bytes from the top down by shifts builds the big-endian form. */
  lemma BigEndianStep(n: nat, k: nat, i: nat)
    ensures BigEndian(ShiftRight(n, i), k + 1) == BigEndian(ShiftRight(n, i + 1), k) + [Byte(ShiftRight(n, i))]
  {
    BigEndianUnfold(ShiftRight(n, i), k);
  }

  lemma {:induction false} ShiftedOut(n: nat, k: nat)
    requires n < Pow256(k)
    ensures ShiftRight(n, k) == 0
  {
    if k > 0 {
      ShiftInside(n, k - 1);
      ShiftedOut(n / 256, k - 1);
    }
  }

  lemma {:induction false} ShiftInside(n: nat, k: nat)
    ensures ShiftRight(n, k + 1) == ShiftRight(n / 256, k)
  {
    if k > 0 { ShiftInside(n, k - 1); }
  }

  /** Four bytes as a word, most significant byte first. */
  function LoadBe32(s: bytes, i: nat): word
    requires i + 4 <= |s|
  {
    (s[i] as word << 24) | (s[i + 1] as word << 16) | (s[i + 2] as word << 8) | s[i + 3] as word
  }

  function Be32(v: word): (s: bytes)
    ensures |s| == 4
  {
    [((v >> 24) & 0xFF) as byte, ((v >> 16) & 0xFF) as byte, ((v >> 8) & 0xFF) as byte, (v & 0xFF) as byte]
  }

  lemma Be32RoundTrip(v: word)
    ensures LoadBe32(Be32(v), 0) == v
  {
  }

  /** Byte i of data XORed with byte i mod 4 of the masking key. */
  function Masked(data: bytes, mask: bytes): (r: bytes)
    requires |mask| == 4
    ensures |r| == |data|
  {
    seq(|data|, i requires 0 <= i < |data| => data[i] ^ mask[i % 4])
  }

  lemma MaskTwice(data: bytes, mask: bytes)
    requires |mask| == 4
    ensures Masked(Masked(data, mask), mask) == data
  {
    forall i | 0 <= i < |data|
      ensures Masked(Masked(data, mask), mask)[i] == data[i]
    {
      XorTwice(data[i], mask[i % 4]);
    }
  }

  lemma XorTwice(a: byte, b: byte)
    ensures (a ^ b) ^ b == a
  {
  }
}
