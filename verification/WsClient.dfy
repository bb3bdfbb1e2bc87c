/** The sending side: client/src/transport/websocket/ws_client.c. */
module WsClient {
  import opened Bytes
  import opened Frames
  import opened Sockets

  /** xorshift32, the generator behind the masking keys. */
  function XorShift(state: word): word {
    var a := state ^ (state << 13);
    var b := a ^ (a >> 17);
    b ^ (b << 5)
  }

  lemma ZeroStays(x: word)
    ensures XorShift(x) == 0 <==> x == 0
  {
  }

  /** A key that masks nothing comes from the zero state alone. */
  lemma ZeroKey(x: word)
    ensures Be32(XorShift(x)) == [0, 0, 0, 0] <==> x == 0
  {
    ZeroStays(x);
    assert LoadBe32([0, 0, 0, 0], 0) == 0 && Be32(0) == [0, 0, 0, 0];
    Be32RoundTrip(XorShift(x));
    hide XorShift, Be32, LoadBe32;
  }

  const TEXT: byte := 0x81
  const CLOSING: byte := 0x88
  const NORMAL_CLOSURE: bytes := [0x03, 0xE8]
  const MAX_SIZE: nat := UINT64_MODULUS

  /** The frame section 5.2 of RFC 6455 prescribes for a client's text message. */
  function TextFrame(mask: bytes, data: bytes): bytes
    requires |mask| == 4 && |data| < MAX_SIZE
  {
    Wire(TEXT, Some(mask), ShortestForm(|data|), data)
  }

  function CloseFrame(mask: bytes): bytes
    requires |mask| == 4
  {
    Wire(CLOSING, Some(mask), Short, NORMAL_CLOSURE)
  }

  /** The eight bytes ws_close lays out by hand. */
  function CloseBytes(mask: bytes): bytes
    requires |mask| == 4
  {
    [CLOSING, 0x80 | 2, mask[0], mask[1], mask[2], mask[3], 0x03 ^ mask[0], 0xE8 ^ mask[1]]
  }

  lemma CloseBytesAreAFrame(mask: bytes)
    requires |mask| == 4
    ensures CloseBytes(mask) == CloseFrame(mask)
  {
    var masked := [0x03 ^ mask[0], 0xE8 ^ mask[1]];
    assert Masked(NORMAL_CLOSURE, mask) == masked;
    assert HeadBytes(CLOSING, Some(mask), Short, 2) == [CLOSING, 0x80 | 2] + mask;
    assert CloseBytes(mask) == [CLOSING, 0x80 | 2] + mask + masked;
  }

  lemma WideLength(len: nat)
    requires len < 65536
    ensures BigEndian(len, 2) == [Byte(ShiftRight(len, 1)), Byte(len)]
  {
    BigEndianUnfold(len, 1);
    BigEndianUnfold(len / 256, 0);
  }

  lemma ChunkSent(wire: bytes, sent: nat, n: nat, room: nat)
    requires sent + n <= |wire|
    ensures var part := wire[sent..sent + n];
            && (n <= room ==> wire[..sent] + part == wire[..sent + n])
            && (room < n ==> wire[..sent] + Take(part, room) == Take(wire, sent + room))
  {
  }

  lemma MaskedAt(data: bytes, mask: bytes, i: nat)
    requires |mask| == 4 && i < |data|
    ensures Masked(data, mask)[i] == data[i] ^ mask[i % 4]
  {
  }

  class Client {
    const sock: Socket<byte>
    var rngState: word

    constructor (sock: Socket<byte>, seed: word)
      ensures this.sock == sock && rngState == seed
    {
      this.sock, rngState := sock, seed;
    }

    /** The key is the next state, most significant byte first; only the zero state gives a key that masks nothing. */
    method NextMask() returns (mask: bytes)
      modifies this`rngState
      ensures rngState == XorShift(old(rngState)) && mask == Be32(rngState)
      ensures LoadBe32(mask, 0) == rngState
      ensures mask == [0, 0, 0, 0] <==> old(rngState) == 0
    {
      ZeroKey(rngState);
      hide XorShift, Be32, LoadBe32;
      rngState := XorShift(rngState);
      mask := Be32(rngState);
      Be32RoundTrip(rngState);
    }

    /** The eight length bytes of the longest form, from the top down. */
    method PutLength64(hdr: array<byte>, len: nat)
      requires hdr.Length == 14 && len < MAX_SIZE
      modifies hdr
      ensures hdr[0] == old(hdr[0]) && hdr[1] == old(hdr[1]) && hdr[2..10] == BigEndian(len, 8)
    {
      ShiftedOut(len, 8) by { Pow256Values(); }
      var hdrLen, i := 2, 8;
      while i > 0
        invariant 0 <= i <= 8 && hdrLen == 10 - i
        invariant hdr[0] == old(hdr[0]) && hdr[1] == old(hdr[1])
        invariant hdr[2..hdrLen] == BigEndian(ShiftRight(len, i), 8 - i)
      {
        i := i - 1;
        BigEndianStep(len, 7 - i, i);
        ghost var before := hdr[2..hdrLen];
        hdr[hdrLen] := Byte(ShiftRight(len, i));
        assert hdr[2..hdrLen + 1] == before + [Byte(ShiftRight(len, i))];
        hdrLen := hdrLen + 1;
      }
    }

    /** Everything of the header up to the masking key. */
    method PutLength(hdr: array<byte>, len: nat) returns (hdrLen: nat)
      requires hdr.Length == 14 && len < MAX_SIZE
      modifies hdr
      ensures hdrLen <= 10
      ensures hdr[..hdrLen] == [TEXT, SecondByte(LengthCode(ShortestForm(len), len), true)] + Extension(ShortestForm(len), len)
    {
      hide BigEndian, ShiftRight, Byte;
      hdr[0] := TEXT;
      hdrLen := 2;
      if len < 126 {
        hdr[1] := 0x80 | len as byte;
      } else if len < 65536 {
        hdr[1] := 0x80 | 126;
        hdr[2], hdr[3] := Byte(ShiftRight(len, 1)), Byte(len);
        hdrLen := 4;
        WideLength(len);
      } else {
        hdr[1] := 0x80 | 127;
        PutLength64(hdr, len);
        hdrLen := 10;
      }
      assert hdr[2..hdrLen] == Extension(ShortestForm(len), len);
      assert hdr[..hdrLen] == [hdr[0], hdr[1]] + hdr[2..hdrLen];
    }

    /** Fills hdr with the header of a masked text frame and returns its length. */
    method BuildHeader(hdr: array<byte>, mask: bytes, len: nat) returns (hdrLen: nat)
      requires hdr.Length == 14 && |mask| == 4 && len < MAX_SIZE
      modifies hdr
      ensures hdrLen <= 14 && hdr[..hdrLen] == HeadBytes(TEXT, Some(mask), ShortestForm(len), len)
    {
      hdrLen := PutLength(hdr, len);
      ghost var prefix := hdr[..hdrLen];
      hdr[hdrLen], hdr[hdrLen + 1], hdr[hdrLen + 2], hdr[hdrLen + 3] := mask[0], mask[1], mask[2], mask[3];
      hdrLen := hdrLen + 4;
      assert hdr[..hdrLen] == prefix + mask;
    }

    /** Fills the chunk with the next masked bytes. */
    static method MaskChunk(chunk: array<byte>, data: bytes, mask: bytes, sent: nat) returns (chunkLen: nat)
      requires |mask| == 4 && sent <= |data| && chunk.Length == 4096
      modifies chunk
      ensures chunkLen == Min(|data| - sent, 4096)
      ensures chunk[..chunkLen] == Masked(data, mask)[sent..sent + chunkLen]
    {
      hide Masked;
      chunkLen := Min(|data| - sent, chunk.Length);
      ghost var wire := Masked(data, mask);
      for i := 0 to chunkLen
        invariant forall k :: 0 <= k < i ==> chunk[k] == wire[sent + k]
      {
        MaskedAt(data, mask, sent + i);
        chunk[i] := data[sent + i] ^ mask[(sent + i) % 4];
      }
    }

    /** Sends the payload in masked chunks of at most 4096 bytes. */
    method SendMasked(data: bytes, mask: bytes) returns (ok: bool)
      requires |mask| == 4
      modifies sock`outbox, sock`room
      ensures ok <==> |data| <= old(sock.room)
      ensures sock.outbox == old(sock.outbox) + Take(Masked(data, mask), old(sock.room))
      ensures sock.room == old(sock.room) - Min(|data|, old(sock.room))
    {
      var chunk := new byte[4096];
      var sent := 0;
      ghost var wire := Masked(data, mask);
      while sent < |data|
        invariant sent <= |data| && sent <= old(sock.room)
        invariant sock.room == old(sock.room) - sent
        invariant sock.outbox == old(sock.outbox) + wire[..sent]
      {
        var chunkLen := MaskChunk(chunk, data, mask, sent);
        var part := chunk[..chunkLen];
        ghost var room := sock.room;
        ChunkSent(wire, sent, chunkLen, room);
        var sentAll := SendExact(sock, part);
        if !sentAll {
          return false;
        }
        TakeAll(part, room);
        sent := sent + chunkLen;
      }
      return true;
    }

    /** ws_send_text: one text frame goes out, or the part of it the connection still carries. */
    method SendText(data: bytes) returns (ok: bool)
      requires |data| < MAX_SIZE
      modifies this`rngState, sock`outbox, sock`room
      ensures rngState == XorShift(old(rngState))
      ensures var frame := TextFrame(Be32(rngState), data);
              && sock.outbox == old(sock.outbox) + Take(frame, old(sock.room))
              && sock.room == old(sock.room) - Min(|frame|, old(sock.room))
              && (ok <==> |frame| <= old(sock.room))
    {
      hide Take, XorShift, Be32, HeadBytes, Masked;
      var mask := NextMask();
      var hdr := new byte[14];
      var hdrLen := BuildHeader(hdr, mask, |data|);
      ghost var head := hdr[..hdrLen];
      TakeConcat(head, Masked(data, mask), sock.room);
      TakeNothing(Masked(data, mask));
      var sent := SendExact(sock, hdr[..hdrLen]);
      if !sent {
        return false;
      }
      ok := SendMasked(data, mask);
    }

    /** ws_close up to closing the socket: the Close frame goes out, a failure is ignored. */
    method Close()
      modifies this`rngState, sock`outbox, sock`room, sock`inbox
      ensures rngState == XorShift(old(rngState))
      ensures sock.outbox == old(sock.outbox) + Take(CloseFrame(Be32(rngState)), old(sock.room))
    {
      var mask := NextMask();
      CloseBytesAreAFrame(mask);
      var sent := SendExact(sock, CloseBytes(mask));
      var echo := new byte[16];
      var echoed := RecvExact(sock, echo, 2);
    }
  }
}
