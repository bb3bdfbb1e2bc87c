/** The receiving side: server/src/transport/websocket/ws_subscriber.cpp. */
module WsSubscriber {
  import opened Bytes
  import opened Frames
  import opened Sockets

  /** What remains of a connection after one decoder step: a reply may be cut short by a dead link. */
  twostate predicate Stepped(sock: Socket<byte>, outcome: Outcome)
    reads sock
  {
    && outcome.Continue?
    && sock.inbox == outcome.rest
    && sock.outbox == old(sock.outbox) + Take(outcome.reply, old(sock.room))
  }

  /** Reads the extended payload length of k bytes and accumulates it. */
  method ReadLength(sock: Socket<byte>, k: nat) returns (ok: bool, len: nat)
    modifies sock`inbox
    ensures ok <==> k <= |old(sock.inbox)|
    ensures ok ==> len == FromBigEndian(old(sock.inbox)[..k]) && sock.inbox == old(sock.inbox)[k..]
  {
    len := 0;
    var ext := new byte[k];
    ok := RecvExact(sock, ext, k);
    if ok {
      for i := 0 to k
        invariant len == FromBigEndian(ext[..i])
      {
        assert ext[..i + 1][..i] == ext[..i];
        len := 256 * len + ext[i] as int;
      }
      assert ext[..k] == ext[..];
    }
  }

  /** Unmasks a received payload in place. */
  method Unmask(data: array<byte>, mask: Option<bytes>)
    requires ValidMask(mask)
    modifies data
    ensures data[..] == ApplyMask(mask, old(data[..]))
  {
    if mask.Some? {
      for i := 0 to data.Length
        invariant forall k :: 0 <= k < i ==> data[k] == old(data[k]) ^ mask.value[k % 4]
        invariant forall k :: i <= k < data.Length ==> data[k] == old(data[k])
      {
        data[i] := data[i] ^ mask.value[i % 4];
      }
    }
  }

  /** The header part shared by both decoders of the server, after its first two bytes. */
  method ReadRestOfHead(sock: Socket<byte>, first: byte, second: byte) returns (head: Head)
    modifies sock`inbox
    ensures head == ReadHead([first, second] + old(sock.inbox))
    ensures head.Head? ==> sock.inbox == ([first, second] + old(sock.inbox))[head.size..]
  {
    ghost var s := [first, second] + sock.inbox;
    assert s[2..] == sock.inbox;
    var masked := second & 0x80 != 0;
    var len := (second & 0x7F) as int;
    var size := 2;
    if len == 126 || len == 127 {
      var k := ExtensionSize(len);
      var ok, extended := ReadLength(sock, k);
      if !ok {
        return NoHead;
      }
      assert s[2..2 + k] == s[2..][..k] && s[2 + k..] == s[2..][k..];
      len, size := extended, 2 + k;
    }
    assert sock.inbox == s[size..];
    var mask: Option<bytes> := None;
    if masked {
      var key := new byte[4];
      var ok := RecvExact(sock, key, 4);
      if !ok {
        return NoHead;
      }
      mask := Some(key[..4]);
      assert key[..4] == s[size..][..4] == s[size..size + 4] && s[size + 4..] == s[size..][4..];
      size := size + 4;
    }
    head := Head(first & 0x0F, mask, len, size);
  }

  /** Receives and unmasks n payload bytes. */
  method ReadPayload(sock: Socket<byte>, mask: Option<bytes>, n: nat) returns (ok: bool, payload: bytes)
    requires ValidMask(mask)
    modifies sock`inbox
    ensures ok <==> n <= |old(sock.inbox)|
    ensures ok ==> payload == ApplyMask(mask, old(sock.inbox)[..n]) && sock.inbox == old(sock.inbox)[n..]
    ensures !ok ==> sock.inbox == []
  {
    payload := [];
    var data := new byte[n];
    ok := RecvExact(sock, data, n);
    if ok {
      assert data[..] == old(sock.inbox)[..n];
      Unmask(data, mask);
      payload := data[..];
    }
  }

  method SendPong(sock: Socket<byte>, data: bytes)
    modifies sock`outbox, sock`room
    ensures sock.outbox == old(sock.outbox) + Take(SubscriberPong(data), old(sock.room))
  {
    if |data| > 125 {
      return;
    }
    TakeConcat([0x8A, Byte(|data|)], data, sock.room);
    var sent := SendExact(sock, [0x8A, Byte(|data|)]);
    if |data| > 0 {
      sent := SendExact(sock, data);
    }
  }

  /** read_frame: one frame off the connection, for every way the kernel splits it. */
  method ReadFrame(sock: Socket<byte>) returns (ok: bool, payload: bytes)
    modifies sock
    ensures ok <==> Subscriber(old(sock.inbox)).Continue?
    ensures ok ==> payload == Subscriber(old(sock.inbox)).payload && Stepped(sock, Subscriber(old(sock.inbox)))
  {
    ghost var s := sock.inbox;
    payload := [];
    var hdr := new byte[2];
    ok := RecvExact(sock, hdr, 2);
    if !ok {
      return;
    }
    assert s == [hdr[0], hdr[1]] + sock.inbox;
    var head := ReadRestOfHead(sock, hdr[0], hdr[1]);
    if head.NoHead? || head.opcode == CLOSE {
      return false, [];
    }
    if head.opcode == PING {
      var data;
      ok, data := ReadPayload(sock, head.mask, head.length);
      if ok {
        SendPong(sock, data);
      }
    } else if head.opcode == PONG {
      var ignored := new byte[head.length];
      var got := RecvExact(sock, ignored, head.length);
    } else if head.length > 0 {
      ok, payload := ReadPayload(sock, head.mask, head.length);
    }
  }
}
