/** Base64, section 4 of RFC 4648: client/src/crypto/base64.c and the server's string version. */
module Base64 {
  import opened Bytes

  const UPPER: string := "ABCDEFGHIJKLMNOPQRSTUVWXYZ"
  const LOWER: string := "abcdefghijklmnopqrstuvwxyz"
  const DIGITS: string := "0123456789+/"
  const TABLE: string := UPPER + LOWER + DIGITS

  type sextet = x: bv32 | x < 64

  function Symbol(x: sextet): char {
    TABLE[x as int]
  }

  /** The value of a symbol, by the ranges of table 1 of RFC 4648 rather than by the encoder's table. */
  function Value(c: char): (v: nat)
    ensures v < 64
  {
    if 'A' <= c <= 'Z' then c as int - 'A' as int
    else if 'a' <= c <= 'z' then c as int - 'a' as int + 26
    else if '0' <= c <= '9' then c as int - '0' as int + 52
    else if c == '+' then 62
    else 63
  }

  predicate IsSymbol(c: char) {
    'A' <= c <= 'Z' || 'a' <= c <= 'z' || '0' <= c <= '9' || c == '+' || c == '/'
  }

  lemma UpperAt(i: nat)
    requires i < 26
    ensures UPPER[i] as int == 'A' as int + i
  {
  }

  lemma LowerAt(i: nat)
    requires i < 26
    ensures LOWER[i] as int == 'a' as int + i
  {
  }

  lemma DigitAt(i: nat)
    requires i < 10
    ensures DIGITS[i] as int == '0' as int + i
  {
  }

  lemma SymbolValue(i: nat)
    requires i < 64
    ensures IsSymbol(TABLE[i]) && Value(TABLE[i]) == i
  {
    if i < 26 {
      UpperAt(i);
    } else if i < 52 {
      LowerAt(i - 26);
    } else if i < 62 {
      DigitAt(i - 52);
    }
  }

  function ValueBits(c: char): sextet {
    Value(c) as bv32
  }

  lemma SymbolBits(x: sextet)
    ensures IsSymbol(Symbol(x)) && ValueBits(Symbol(x)) == x
  {
    SymbolValue(x as int);
  }

  /** Three bytes side by side in the low 24 bits. */
  function Group(b0: byte, b1: byte, b2: byte): bv32 {
    (b0 as bv32 << 16) | (b1 as bv32 << 8) | b2 as bv32
  }

  function Six(b: bv32, shift: nat): sextet
    requires shift < 32
  {
    (b >> shift) & 0x3F
  }

  /** The first bytes of data, with zeros past its end, as the source gathers them. */
  function GroupAt(data: bytes, i: nat): bv32
    requires i < |data|
  {
    Group(data[i], if i + 1 < |data| then data[i + 1] else 0, if i + 2 < |data| then data[i + 2] else 0)
  }

  function EncodeGroup(data: bytes, i: nat): (s: string)
    requires i < |data|
    ensures |s| == 4
  {
    var b := GroupAt(data, i);
    [Symbol(Six(b, 18)), Symbol(Six(b, 12)),
     if i + 1 < |data| then Symbol(Six(b, 6)) else '=',
     if i + 2 < |data| then Symbol(Six(b, 0)) else '=']
  }

  /** The encoding of data from byte i on. */
  function EncodeFrom(data: bytes, i: nat): string
    decreases |data| - i
  {
    if i >= |data| then [] else EncodeGroup(data, i) + EncodeFrom(data, i + 3)
  }

  function Encode(data: bytes): string {
    EncodeFrom(data, 0)
  }

  function EncodedSize(len: nat): nat {
    (len + 2) / 3 * 4
  }

  /** A decoder written from RFC 4648: groups of four symbols, padding only at the very end. */
  function Decode(text: string): Option<bytes>
    decreases |text|
  {
    if text == [] then Some([])
    else if |text| < 4 || !IsSymbol(text[0]) || !IsSymbol(text[1]) then None
    else
      var a, b := ValueBits(text[0]), ValueBits(text[1]);
      if text[3] == '=' then
        if |text| != 4 then None
        else if text[2] == '=' then Some([First(a, b)])
        else if !IsSymbol(text[2]) then None
        else Some([First(a, b), Second(b, ValueBits(text[2]))])
      else if !IsSymbol(text[2]) || !IsSymbol(text[3]) then None
      else
        var c, d := ValueBits(text[2]), ValueBits(text[3]);
        match Decode(text[4..])
        case None => None
        case Some(rest) => Some([First(a, b), Second(b, c), Third(c, d)] + rest)
  }

  function First(a: sextet, b: sextet): byte { ((a << 2) | (b >> 4)) as byte }

  function Second(b: sextet, c: sextet): byte { (((b << 4) | (c >> 2)) & 0xFF) as byte }

  function Third(c: sextet, d: sextet): byte { (((c << 6) | d) & 0xFF) as byte }

  lemma GroupSplits(b0: byte, b1: byte, b2: byte)
    ensures var b := Group(b0, b1, b2);
            && First(Six(b, 18), Six(b, 12)) == b0
            && Second(Six(b, 12), Six(b, 6)) == b1
            && Third(Six(b, 6), Six(b, 0)) == b2
  {
    FirstOfGroup(b0, b1, b2);
    SecondOfGroup(b0, b1, b2);
    ThirdOfGroup(b0, b1, b2);
    hide First, Second, Third, Six, Group;
  }

  lemma FirstOfGroup(b0: byte, b1: byte, b2: byte)
    ensures var b := Group(b0, b1, b2); First(Six(b, 18), Six(b, 12)) == b0
  {
  }

  lemma SecondOfGroup(b0: byte, b1: byte, b2: byte)
    ensures var b := Group(b0, b1, b2); Second(Six(b, 12), Six(b, 6)) == b1
  {
  }

  lemma ThirdOfGroup(b0: byte, b1: byte, b2: byte)
    ensures var b := Group(b0, b1, b2); Third(Six(b, 6), Six(b, 0)) == b2
  {
  }

  lemma SymbolsOfGroup(data: bytes, i: nat)
    requires i < |data|
    ensures var s, b := EncodeGroup(data, i), GroupAt(data, i);
            && IsSymbol(s[0]) && IsSymbol(s[1]) && ValueBits(s[0]) == Six(b, 18) && ValueBits(s[1]) == Six(b, 12)
            && (if i + 1 < |data| then s[2] != '=' && IsSymbol(s[2]) && ValueBits(s[2]) == Six(b, 6) else s[2] == '=')
            && (if i + 2 < |data| then s[3] != '=' && IsSymbol(s[3]) && ValueBits(s[3]) == Six(b, 0) else s[3] == '=')
  {
    hide Six, GroupAt, ValueBits, Symbol;
    var b := GroupAt(data, i);
    SymbolBits(Six(b, 18));
    SymbolBits(Six(b, 12));
    SymbolBits(Six(b, 6));
    SymbolBits(Six(b, 0));
  }

  lemma BytesOfGroup(data: bytes, i: nat)
    requires i < |data|
    ensures var b := GroupAt(data, i);
            && First(Six(b, 18), Six(b, 12)) == data[i]
            && (i + 1 < |data| ==> Second(Six(b, 12), Six(b, 6)) == data[i + 1])
            && (i + 2 < |data| ==> Third(Six(b, 6), Six(b, 0)) == data[i + 2])
  {
    hide First, Second, Third, Six, Group;
    GroupSplits(data[i], if i + 1 < |data| then data[i + 1] else 0, if i + 2 < |data| then data[i + 2] else 0);
  }

  /** Decoding undoes encoding for every byte string. */
  lemma {:induction false} DecodeEncodeFrom(data: bytes, i: nat)
    requires i <= |data|
    ensures Decode(EncodeFrom(data, i)) == Some(data[i..])
    decreases |data| - i
  {
    hide First, Second, Third, Six, GroupAt, ValueBits, IsSymbol, EncodeGroup;
    if i < |data| {
      SymbolsOfGroup(data, i);
      BytesOfGroup(data, i);
      var text := EncodeFrom(data, i);
      var g := EncodeGroup(data, i);
      assert text == g + EncodeFrom(data, i + 3);
      assert text[4..] == EncodeFrom(data, i + 3);
      assert text[0] == g[0] && text[1] == g[1] && text[2] == g[2] && text[3] == g[3];
      if i + 2 < |data| {
        DecodeEncodeFrom(data, i + 3);
        assert data[i..] == [data[i], data[i + 1], data[i + 2]] + data[i + 3..];
      } else if i + 1 < |data| {
        assert data[i..] == [data[i], data[i + 1]];
      } else {
        assert data[i..] == [data[i]];
      }
    } else {
      assert data[i..] == [];
    }
  }

  lemma DecodeEncode(data: bytes)
    ensures Decode(Encode(data)) == Some(data)
  {
    DecodeEncodeFrom(data, 0);
    assert data[0..] == data;
  }

  lemma EncodeInjective(a: bytes, b: bytes)
    requires Encode(a) == Encode(b)
    ensures a == b
  {
    DecodeEncode(a);
    DecodeEncode(b);
  }

  /** The length is the announced one, and '=' fills exactly the places past the data. */
  lemma {:induction false} EncodedShape(data: bytes, i: nat)
    requires i <= |data|
    ensures |EncodeFrom(data, i)| == EncodedSize(|data| - i)
    ensures forall k :: 0 <= k < |EncodeFrom(data, i)| ==>
              (EncodeFrom(data, i)[k] == '=' <==> k >= EncodedSize(|data| - i) - (2 - (|data| - i + 2) % 3))
    ensures forall k :: 0 <= k < |EncodeFrom(data, i)| ==>
              EncodeFrom(data, i)[k] == '=' || IsSymbol(EncodeFrom(data, i)[k])
    decreases |data| - i
  {
    hide IsSymbol, EncodeGroup;
    if i < |data| {
      SymbolsOfGroup(data, i);
      PaddingIsNoSymbol();
      if i + 3 <= |data| {
        EncodedShape(data, i + 3);
      }
    }
  }

  lemma PaddingIsNoSymbol()
    ensures !IsSymbol('=')
  {
  }

  lemma EncodedLength(data: bytes)
    ensures |EncodeFrom(data, 0)| == |Encode(data)| == EncodedSize(|data|)
  {
    EncodedShape(data, 0);
  }

  lemma EncodeUnfolds(data: bytes, i: nat)
    ensures EncodeFrom(data, i) == if i < |data| then EncodeGroup(data, i) + EncodeFrom(data, i + 3) else []
  {
  }

  lemma GroupUnfolds(data: bytes, i: nat)
    requires i < |data|
    ensures var b := GroupAt(data, i);
            EncodeGroup(data, i) == [Symbol(Six(b, 18)), Symbol(Six(b, 12)),
                                     if i + 1 < |data| then Symbol(Six(b, 6)) else '=',
                                     if i + 2 < |data| then Symbol(Six(b, 0)) else '=']
  {
  }

  /** The four characters of one round of the loop. */
  method PutGroup(data: bytes, i: nat, out: array<char>, at: nat)
    requires i < |data| && at + 4 <= out.Length
    modifies out
    ensures out[..at] == old(out[..at]) && out[at..at + 4] == EncodeGroup(data, i)
  {
    hide Six, Symbol, GroupAt, EncodeGroup;
    GroupUnfolds(data, i);
    var b := GroupAt(data, i);
    out[at] := Symbol(Six(b, 18));
    out[at + 1] := Symbol(Six(b, 12));
    out[at + 2] := if i + 1 < |data| then Symbol(Six(b, 6)) else '=';
    out[at + 3] := if i + 2 < |data| then Symbol(Six(b, 0)) else '=';
  }

  /** base64_encode of the C library: the caller's buffer receives the text and a final NUL. */
  method EncodeInto(data: bytes, out: array<char>) returns (outPos: nat)
    requires out.Length > EncodedSize(|data|)
    modifies out
    ensures outPos == EncodedSize(|data|)
    ensures out[..outPos] == Encode(data) && out[outPos] == '\0'
  {
    hide Six, Symbol, GroupAt, EncodeFrom, EncodedSize, EncodeGroup;
    EncodedLength(data);
    EncodeUnfolds(data, 0);
    outPos := 0;
    var i := 0;
    while i < |data|
      invariant outPos + |EncodeFrom(data, i)| == EncodedSize(|data|)
      invariant out[..outPos] + EncodeFrom(data, i) == Encode(data)
      decreases |data| - i
    {
      EncodeUnfolds(data, i);
      ghost var before := out[..outPos];
      PutGroup(data, i, out, outPos);
      assert out[..outPos + 4] == before + EncodeGroup(data, i);
      outPos := outPos + 4;
      i := i + 3;
    }
    EncodeUnfolds(data, i);
    out[outPos] := '\0';
  }

  /** The server's version, which appends to a string. */
  method EncodeString(data: bytes) returns (out: string)
    ensures out == Encode(data)
  {
    hide Six, Symbol, GroupAt, EncodeFrom;
    out := [];
    var i := 0;
    while i < |data|
      invariant out + EncodeFrom(data, i) == Encode(data)
      decreases |data| - i
    {
      var b := GroupAt(data, i);
      ghost var before := out;
      EncodeUnfolds(data, i);
      out := out + [Symbol(Six(b, 18))];
      out := out + [Symbol(Six(b, 12))];
      out := out + [if i + 1 < |data| then Symbol(Six(b, 6)) else '='];
      out := out + [if i + 2 < |data| then Symbol(Six(b, 0)) else '='];
      assert out == before + EncodeGroup(data, i);
      i := i + 3;
    }
    EncodeUnfolds(data, i);
  }
}
