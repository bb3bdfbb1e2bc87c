/** The dashboard's own framing code, server/src/webif/web_interface.cpp, against the subscriber's. */
module WebFrames {
  import opened Bytes
  import opened Frames
  import opened Sockets
  import WsClient
  import WsSubscriber

  lemma DashboardStops(s: bytes)
    requires |s| < 2 || s[0] & 0x0F == CLOSE || ReadHead(s).NoHead?
    ensures Dashboard(s).Stop?
  {
  }

  lemma DashboardGoesOn(s: bytes)
    requires |s| >= 2 && s[0] & 0x0F != CLOSE && ReadHead(s).Head?
    ensures ReadHead(s).opcode == s[0] & 0x0F
    ensures var h := ReadHead(s);
            var body := s[h.size..];
            Dashboard(s) == if |body| < h.length then Stop else
              Continue([], if h.opcode == PING then DashboardPong(ApplyMask(h.mask, body[..h.length])) else [], body[h.length..])
  {
    var h := ReadHead(s);
    if |s| - h.size >= h.length {
      assert s[h.size..][..h.length] == s[h.size..h.size + h.length];
      assert s[h.size..][h.length..] == s[h.size + h.length..];
    }
  }

  /** ws_discard_frame: one frame off the connection, answering pings. */
  method DiscardFrame(sock: Socket<byte>) returns (ok: bool)
    modifies sock
    ensures ok <==> Dashboard(old(sock.inbox)).Continue?
    ensures ok ==> WsSubscriber.Stepped(sock, Dashboard(old(sock.inbox)))
  {
    hide Dashboard, ReadHead, DashboardPong;
    ghost var s := sock.inbox;
    var hdr := new byte[2];
    ok := RecvExact(sock, hdr, 2);
    if !ok {
      DashboardStops(s);
      return;
    }
    assert s == [hdr[0], hdr[1]] + sock.inbox;
    if hdr[0] & 0x0F == CLOSE {
      DashboardStops(s);
      return false;
    }
    var head := WsSubscriber.ReadRestOfHead(sock, hdr[0], hdr[1]);
    if head.NoHead? {
      DashboardStops(s);
      return false;
    }
    DashboardGoesOn(s);
    var data: bytes := [];
    if head.length > 0 {
      ok, data := WsSubscriber.ReadPayload(sock, head.mask, head.length);
      if !ok {
        return;
      }
    }
    if head.opcode == PING {
      AnswerPing(sock, data);
    }
  }

  method AnswerPing(sock: Socket<byte>, data: bytes)
    modifies sock`outbox, sock`room
    ensures sock.outbox == old(sock.outbox) + Take(DashboardPong(data), old(sock.room))
  {
    var pong := [0x8A, Byte(|data| % 128)];
    TakeConcat(pong, data, sock.room);
    var sent := SendExact(sock, pong);
    if data != [] {
      sent := SendExact(sock, data);
    }
  }

  /** The loop over the eight length bytes of the longest form. */
  method AppendLength64(start: bytes, len: nat) returns (frame: bytes)
    requires len < WsClient.MAX_SIZE
    ensures frame == start + BigEndian(len, 8)
  {
    ShiftedOut(len, 8) by { Pow256Values(); }
    frame := start;
    var i := 8;
    while i > 0
      invariant 0 <= i <= 8 && frame == start + BigEndian(ShiftRight(len, i), 8 - i)
    {
      i := i - 1;
      BigEndianStep(len, 7 - i, i);
      frame := frame + [Byte(ShiftRight(len, i))];
    }
  }

  /** ws_encode_frame: an unmasked text frame in the shortest length form. */
  method EncodeFrame(payload: bytes) returns (frame: bytes)
    requires |payload| < WsClient.MAX_SIZE
    ensures frame == Wire(0x81, None, ShortestForm(|payload|), payload)
  {
    hide BigEndian, ShiftRight;
    var len := |payload|;
    frame := [0x81];
    if len < 126 {
      frame := frame + [len as byte];
      assert SecondByte(len, false) == len as byte;
    } else if len < 65536 {
      frame := frame + [0x7E] + [Byte(ShiftRight(len, 1))] + [Byte(len)];
      WsClient.WideLength(len);
    } else {
      frame := frame + [0x7F];
      frame := AppendLength64(frame, len);
    }
    assert frame == HeadBytes(0x81, None, ShortestForm(len), len);
    frame := frame + payload;
  }

  /** No form that fits n is shorter than the one the encoders choose. */
  lemma ShortestFormIsShortest(form: LengthForm, n: nat)
    requires Fits(form, n)
    ensures Fits(ShortestForm(n), n)
    ensures |Extension(ShortestForm(n), n)| <= |Extension(form, n)|
    ensures |Extension(ShortestForm(n), n)| == |Extension(form, n)| ==> form == ShortestForm(n)
  {
  }

  /**
   * On a complete frame that is not a Close the two decoders leave the same bytes unread. Their
   * replies agree unless it is a ping over 125 bytes; a ping within the limit gets one Pong frame.
   */
  lemma DecodersAgree(first: byte, mask: Option<bytes>, form: LengthForm, payload: bytes, rest: bytes)
    requires ValidMask(mask) && Fits(form, |payload|) && first & 0x0F != CLOSE
    ensures var s := Wire(first, mask, form, payload) + rest;
            var a, b := Subscriber(s), Dashboard(s);
            && a.Continue? && b.Continue? && a.rest == rest == b.rest
            && (a.reply == b.reply <==> first & 0x0F != PING || |payload| <= 125)
            && (first & 0x0F == PING && |payload| <= 125 ==> a.reply == Wire(0x8A, None, Short, payload))
  {
    hide Subscriber, Dashboard, Wire;
    SubscriberReadsWire(first, mask, form, payload, rest);
    DashboardReadsWire(first, mask, form, payload, rest);
    if |payload| <= 125 { ShortPong(payload); }
  }

  lemma ShortPong(data: bytes)
    requires |data| <= 125
    ensures SubscriberPong(data) == DashboardPong(data) == Wire(0x8A, None, Short, data)
  {
    assert SecondByte(|data|, false) == Byte(|data|);
  }

  /** The dashboard's pong reads back as the ping's payload exactly when that has at most 125 bytes. */
  lemma DashboardPongIsOneFrame(data: bytes)
    ensures (ReadHead(DashboardPong(data)).Head?
             && DashboardPong(data)[ReadHead(DashboardPong(data)).size..] == data
             && ReadHead(DashboardPong(data)).length == |data|)
       <==> |data| <= 125
  {
    hide Byte, FromBigEndian, ReadHead;
    PongHead(data);
  }

  /** Read as a frame, the dashboard's pong has the length its low seven bits say. */
  lemma PongHead(data: bytes)
    ensures var s, n := DashboardPong(data), |data| % 128;
            && |s| == |data| + 2 && s[2..] == data
            && (n < 126 ==> ReadHead(s).Head? && ReadHead(s).size == 2 && ReadHead(s).length == n)
            && (n >= 126 && ReadHead(s).Head? ==> ReadHead(s).size > 2)
  {
    hide Byte, FromBigEndian;
    ByteValue(|data| % 128);
    HighBitClear(DashboardPong(data)[1]);
  }

  lemma HighBitClear(b: byte)
    ensures b < 0x80 ==> b & 0x80 == 0 && b & 0x7F == b
    ensures b as int < 0x80 ==> b < 0x80
  {
  }

  /**
   * On arbitrary input the decoders part ways only over a Pong whose payload the connection cut
   * short: the subscriber carries on, the dashboard gives up.
   */
  lemma DecodersPartOnCutPong(s: bytes)
    ensures Subscriber(s).Continue? != Dashboard(s).Continue?
       <==> ReadHead(s).Head? && ReadHead(s).opcode == PONG && |s| - ReadHead(s).size < ReadHead(s).length
    ensures Subscriber(s).Continue? && Dashboard(s).Continue? ==> Subscriber(s).rest == Dashboard(s).rest
  {
    var h := ReadHead(s);
    if h.Head? && |s| - h.size >= h.length {
      assert s[h.size..][..h.length] == s[h.size..h.size + h.length];
      assert s[h.size..][h.length..] == s[h.size + h.length..];
    }
  }

  /** Every frame the dashboard broadcasts is one complete frame that decodes to its payload. */
  lemma EncodedFrameDecodes(payload: bytes, rest: bytes)
    requires |payload| < WsClient.MAX_SIZE
    ensures Subscriber(Wire(0x81, None, ShortestForm(|payload|), payload) + rest) == Continue(payload, [], rest)
  {
    hide Subscriber, Wire;
    SubscriberReadsWire(0x81, None, ShortestForm(|payload|), payload, rest);
  }

  function FormOf(second: byte): LengthForm {
    if second & 0x7F == 126 then Wide16 else if second & 0x7F == 127 then Wide64 else Short
  }

  lemma ReadLengthFits(s: bytes)
    requires ReadHead(s).Head?
    ensures var h, form := ReadHead(s), FormOf(s[1]);
            && Fits(form, h.length)
            && LengthCode(form, h.length) == (s[1] & 0x7F) as int
            && |s| >= h.size == 2 + ExtensionSize((s[1] & 0x7F) as int) + |MaskBytes(h.mask)|
            && Extension(form, h.length) == s[2..h.size - |MaskBytes(h.mask)|]
            && MaskBytes(h.mask) == s[h.size - |MaskBytes(h.mask)|..h.size]
            && (h.mask.Some? <==> s[1] & 0x80 != 0)
  {
    var code := (s[1] & 0x7F) as int;
    assert s[1] & 0x7F < 0x80;
    Pow256Values();
    FromBigEndianRoundTrip(s[2..2 + ExtensionSize(code)]);
  }

  /** Conversely, whatever either decoder takes for a header is one in the sense of section 5.2. */
  lemma EveryReadIsAFrame(s: bytes)
    requires ReadHead(s).Head?
    ensures var h := ReadHead(s);
            && Fits(FormOf(s[1]), h.length)
            && s == HeadBytes(s[0], h.mask, FormOf(s[1]), h.length) + s[h.size..]
  {
    hide ReadHead, Extension, MaskBytes;
    ReadLengthFits(s);
    SecondByteFromBits(s[1]);
    var h := ReadHead(s);
    var m := h.size - |MaskBytes(h.mask)|;
    assert s == [s[0], s[1]] + s[2..m] + s[m..h.size] + s[h.size..];
  }

  lemma {:induction false} FromBigEndianRoundTrip(s: bytes)
    ensures BigEndian(FromBigEndian(s), |s|) == s
  {
    if s != [] {
      var n := FromBigEndian(s);
      var high := s[..|s| - 1];
      FromBigEndianRoundTrip(high);
      assert n / 256 == FromBigEndian(high) && n % 256 == s[|s| - 1] as int;
      BigEndianUnfold(n, |s| - 1);
      assert Byte(n) == s[|s| - 1];
    }
  }
}
