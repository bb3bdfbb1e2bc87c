/** A connected stream socket and the loops that make partial sends and receives whole. */
module Sockets {
  import opened Bytes

  /**
   * One end of a TCP connection. The kernel decides how much each call moves. The units are bytes;
   * the handshakes, which are text, take them as characters.
   */
  class Socket<T(==)> {
    var inbox: seq<T>   // what the peer's data still holds before the connection ends
    var outbox: seq<T>  // what this side has sent so far
    var room: nat       // how much more the connection carries before send fails

    constructor (inbox: seq<T>, room: nat)
      ensures this.inbox == inbox && this.outbox == [] && this.room == room
    {
      this.inbox, this.outbox, this.room := inbox, [], room;
    }

    /** recv(2): any amount between one byte and the request, or nothing at the end. */
    method Recv(max: nat) returns (data: seq<T>)
      requires max > 0
      modifies this`inbox
      ensures |data| <= max && old(inbox) == data + inbox
      ensures data == [] <==> old(inbox) == []
    {
      if inbox == [] {
        return [];
      }
      var n: nat :| 1 <= n <= max && n <= |inbox|;
      data, inbox := inbox[..n], inbox[n..];
    }

    /** send(2): any amount between one byte and the request, or failure once room is gone. */
    method Send(data: seq<T>) returns (n: nat)
      requires data != []
      modifies this`outbox, this`room
      ensures n <= |data| && n <= old(room) && (n == 0 <==> old(room) == 0)
      ensures outbox == old(outbox) + data[..n] && room == old(room) - n
    {
      if room == 0 {
        return 0;
      }
      n :| 1 <= n <= |data| && n <= room;
      outbox, room := outbox + data[..n], room - n;
    }
  }

  const CHUNK: nat := 65536

  lemma NextPart<T>(all: seq<T>, k: nat, part: seq<T>, rest: seq<T>)
    requires k <= |all| && all[k..] == part + rest
    ensures k + |part| <= |all| && part == all[k..k + |part|] && rest == all[k + |part|..]
  {
    assert |part| + |rest| == |all| - k;
    assert all == all[..k] + all[k..] == all[..k] + part + rest;
  }

  /** Fills buf[..len], however the kernel splits the data. */
  method RecvExact(sock: Socket<byte>, buf: array<byte>, len: nat) returns (ok: bool)
    requires len <= buf.Length
    modifies sock`inbox, buf
    ensures ok <==> len <= |old(sock.inbox)|
    ensures ok ==> buf[..len] == old(sock.inbox)[..len] && sock.inbox == old(sock.inbox)[len..]
    ensures !ok ==> sock.inbox == []
  {
    var received := 0;
    ghost var all := sock.inbox;
    while received < len
      invariant received <= len && received <= |all|
      invariant buf[..received] == all[..received] && sock.inbox == all[received..]
    {
      var part := sock.Recv(Min(len - received, CHUNK));
      if part == [] {
        return false;
      }
      NextPart(all, received, part, sock.inbox);
      forall i | 0 <= i < |part| {
        buf[received + i] := part[i];
      }
      received := received + |part|;
    }
    return true;
  }

  /** Sends the whole of data, or as much of it as the connection carries. */
  method SendExact<T(==)>(sock: Socket<T>, data: seq<T>) returns (ok: bool)
    modifies sock`outbox, sock`room
    ensures ok <==> |data| <= old(sock.room)
    ensures sock.outbox == old(sock.outbox) + Take(data, old(sock.room))
    ensures sock.room == old(sock.room) - Min(|data|, old(sock.room))
  {
    var sent := 0;
    while sent < |data|
      invariant sent <= |data| && sent <= old(sock.room)
      invariant sock.outbox == old(sock.outbox) + data[..sent]
      invariant sock.room == old(sock.room) - sent
    {
      var n := sock.Send(data[sent..sent + Min(|data| - sent, CHUNK)]);
      if n == 0 {
        return false;
      }
      assert data[..sent] + data[sent..sent + n] == data[..sent + n];
      sent := sent + n;
    }
    return true;
  }
}
