/** The base framing protocol of section 5.2 of RFC 6455, and what each decoder makes of a byte stream. */
module Frames {
  import opened Bytes

  const CLOSE: byte := 0x08
  const PING: byte := 0x09
  const PONG: byte := 0x0A

  datatype LengthForm = Short | Wide16 | Wide64

  predicate Fits(form: LengthForm, n: nat) {
    match form
    case Short => n < 126
    case Wide16 => n < 65536
    case Wide64 => n < 0x1_0000_0000_0000_0000
  }

  function ShortestForm(n: nat): LengthForm {
    if n < 126 then Short else if n < 65536 then Wide16 else Wide64
  }

  /** The seven length bits of the second header byte. */
  function LengthCode(form: LengthForm, n: nat): (code: nat)
    requires Fits(form, n)
    ensures code < 128
  {
    match form
    case Short => n
    case Wide16 => 126
    case Wide64 => 127
  }

  function ExtensionSize(code: nat): nat {
    if code == 126 then 2 else if code == 127 then 8 else 0
  }

  predicate ValidMask(mask: Option<bytes>) {
    mask.Some? ==> |mask.value| == 4
  }

  function SecondByte(code: nat, masked: bool): byte
    requires code < 128
  {
    (if masked then 0x80 else 0) | code as byte
  }

  function Extension(form: LengthForm, n: nat): bytes {
    match form
    case Short => []
    case Wide16 => BigEndian(n, 2)
    case Wide64 => BigEndian(n, 8)
  }

  function MaskBytes(mask: Option<bytes>): bytes {
    if mask.Some? then mask.value else []
  }

  function ApplyMask(mask: Option<bytes>, data: bytes): (r: bytes)
    requires ValidMask(mask)
    ensures |r| == |data|
  {
    if mask.Some? then Masked(data, mask.value) else data
  }

  /** The header of a frame carrying n payload bytes. */
  function HeadBytes(first: byte, mask: Option<bytes>, form: LengthForm, n: nat): bytes
    requires Fits(form, n)
  {
    [first, SecondByte(LengthCode(form, n), mask.Some?)] + Extension(form, n) + MaskBytes(mask)
  }

  /** A whole frame as it stands on the wire. */
  function Wire(first: byte, mask: Option<bytes>, form: LengthForm, payload: bytes): bytes
    requires ValidMask(mask) && Fits(form, |payload|)
  {
    HeadBytes(first, mask, form, |payload|) + ApplyMask(mask, payload)
  }

  datatype Head = NoHead | Head(opcode: byte, mask: Option<bytes>, length: nat, size: nat)

  /** The header at the front of s, when all of it has arrived. */
  function ReadHead(s: bytes): (h: Head)
    ensures h.Head? ==> ValidMask(h.mask) && 2 <= h.size <= |s|
  {
    if |s| < 2 then NoHead else
      var masked := s[1] & 0x80 != 0;
      var code := (s[1] & 0x7F) as int;
      var m := 2 + ExtensionSize(code);
      var size := if masked then m + 4 else m;
      if |s| < size then NoHead else
        Head(s[0] & 0x0F,
             if masked then Some(s[m..size]) else None,
             if code < 126 then code else FromBigEndian(s[2..m]),
             size)
  }

  datatype Outcome = Stop | Continue(payload: bytes, reply: bytes, rest: bytes)

  /** The subscriber's send_pong: payloads over 125 bytes get no reply. */
  function SubscriberPong(data: bytes): bytes {
    if |data| > 125 then [] else [0x8A, Byte(|data|)] + data
  }

  /** The dashboard's reply: the length is cut to seven bits. */
  function DashboardPong(data: bytes): bytes {
    [0x8A, Byte(|data| % 128)] + data
  }

  /** One step of the subscriber's decoder: what it hands on, replies and leaves unread. */
  function Subscriber(s: bytes): Outcome {
    var h := ReadHead(s);
    if h.NoHead? || h.opcode == CLOSE then Stop else
      var body := s[h.size..];
      if h.opcode == PONG then Continue([], [], body[Min(h.length, |body|)..])
      else if |body| < h.length then Stop
      else
        var data := ApplyMask(h.mask, body[..h.length]);
        if h.opcode == PING then Continue([], SubscriberPong(data), body[h.length..])
        else Continue(data, [], body[h.length..])
  }

  /** One step of the dashboard's decoder, which drops every payload. */
  function Dashboard(s: bytes): Outcome {
    if |s| < 2 || s[0] & 0x0F == CLOSE then Stop else
      var h := ReadHead(s);
      if h.NoHead? || |s| - h.size < h.length then Stop else
        var data := ApplyMask(h.mask, s[h.size..h.size + h.length]);
        Continue([], if h.opcode == PING then DashboardPong(data) else [], s[h.size + h.length..])
  }

  lemma SecondByteBits(code: nat, masked: bool)
    requires code < 128
    ensures (SecondByte(code, masked) & 0x80 != 0) <==> masked
    ensures (SecondByte(code, masked) & 0x7F) as int == code
  {
    var b := code as byte;
    assert b < 0x80;
    assert (0x80 | b) & 0x7F == b && (0 | b) & 0x7F == b;
  }

  lemma SecondByteFromBits(b: byte)
    ensures SecondByte((b & 0x7F) as int, b & 0x80 != 0) == b
  {
    assert (b & 0x7F) < 0x80;
    assert b & 0x80 == 0 || b & 0x80 == 0x80;
    assert (b & 0x80) | (b & 0x7F) == b;
  }

  lemma ExtensionDecodes(form: LengthForm, n: nat)
    requires Fits(form, n)
    ensures |Extension(form, n)| == ExtensionSize(LengthCode(form, n))
    ensures form != Short ==> FromBigEndian(Extension(form, n)) == n
  {
    Pow256Values();
    match form
    case Short =>
    case Wide16 => BigEndianRoundTrip(n, 2);
    case Wide64 => BigEndianRoundTrip(n, 8);
  }

  /** Every header is read back exactly, whatever follows it. */
  lemma HeadRoundTrip(first: byte, mask: Option<bytes>, form: LengthForm, n: nat, rest: bytes)
    requires ValidMask(mask) && Fits(form, n)
    ensures ReadHead(HeadBytes(first, mask, form, n) + rest)
         == Head(first & 0x0F, mask, n, |HeadBytes(first, mask, form, n)|)
  {
    hide SecondByte, Extension, FromBigEndian, HeadBytes;
    SecondByteBits(LengthCode(form, n), mask.Some?);
    ExtensionDecodes(form, n);
    HeadParts(first, mask, form, n, rest);
  }

  lemma HeadParts(first: byte, mask: Option<bytes>, form: LengthForm, n: nat, rest: bytes)
    requires ValidMask(mask) && Fits(form, n)
    ensures var head, m := HeadBytes(first, mask, form, n), 2 + |Extension(form, n)|;
            var s := head + rest;
            && |head| == m + (if mask.Some? then 4 else 0)
            && s[0] == first && s[1] == SecondByte(LengthCode(form, n), mask.Some?)
            && s[2..m] == Extension(form, n) && s[m..|head|] == MaskBytes(mask)
  {
    hide SecondByte, Extension, LengthCode;
  }

  lemma ApplyMaskTwice(mask: Option<bytes>, data: bytes)
    requires ValidMask(mask)
    ensures ApplyMask(mask, ApplyMask(mask, data)) == data
  {
    if mask.Some? { MaskTwice(data, mask.value); }
  }

  /** The decoders on a complete frame, section 5.2 of RFC 6455: the payload comes out unmasked. */
  lemma SubscriberReadsWire(first: byte, mask: Option<bytes>, form: LengthForm, payload: bytes, rest: bytes)
    requires ValidMask(mask) && Fits(form, |payload|)
    ensures Subscriber(Wire(first, mask, form, payload) + rest)
         == (var opcode := first & 0x0F;
             if opcode == CLOSE then Stop
             else if opcode == PONG then Continue([], [], rest)
             else if opcode == PING then Continue([], SubscriberPong(payload), rest)
             else Continue(payload, [], rest))
  {
    WireSplits(first, mask, form, payload, rest);
    ApplyMaskTwice(mask, payload);
  }

  lemma DashboardReadsWire(first: byte, mask: Option<bytes>, form: LengthForm, payload: bytes, rest: bytes)
    requires ValidMask(mask) && Fits(form, |payload|)
    ensures Dashboard(Wire(first, mask, form, payload) + rest)
         == (var opcode := first & 0x0F;
             if opcode == CLOSE then Stop
             else Continue([], if opcode == PING then DashboardPong(payload) else [], rest))
  {
    WireSplits(first, mask, form, payload, rest);
    ApplyMaskTwice(mask, payload);
    var s := Wire(first, mask, form, payload) + rest;
    var h := ReadHead(s);
    assert s[h.size..h.size + h.length] == s[h.size..][..h.length];
    assert s[h.size + h.length..] == s[h.size..][h.length..];
  }

  lemma WireSplits(first: byte, mask: Option<bytes>, form: LengthForm, payload: bytes, rest: bytes)
    requires ValidMask(mask) && Fits(form, |payload|)
    ensures (var s := Wire(first, mask, form, payload) + rest;
             var h := ReadHead(s);
             && h.Head? && h.opcode == first & 0x0F && h.mask == mask && h.length == |payload|
             && s[h.size..] == ApplyMask(mask, payload) + rest
             && |s| >= 2 && s[0] == first)
  {
    var head := HeadBytes(first, mask, form, |payload|);
    var s := Wire(first, mask, form, payload) + rest;
    assert s == head + (ApplyMask(mask, payload) + rest);
    HeadRoundTrip(first, mask, form, |payload|, ApplyMask(mask, payload) + rest);
  }
}
