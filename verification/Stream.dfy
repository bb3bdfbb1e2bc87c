/** Whole conversations: every message the client sends reaches the server's callback, in order. */
module Stream {
  import opened Bytes
  import opened Frames
  import opened Sockets
  import opened WsClient
  import opened WsSubscriber

  /** The messages the subscriber's loop hands to its callback, when running_ reads true loads times. */
  function Deliver(s: bytes, loads: nat): seq<bytes> {
    if loads == 0 then [] else
      match Subscriber(s)
      case Stop => []
      case Continue(payload, _, rest) => (if payload == [] then [] else [payload]) + Deliver(rest, loads - 1)
  }

  /** The frame loop of run(): read, call back on non-empty payloads, leave on failure or stop. */
  method ServeFrames(sock: Socket<byte>, loads: nat) returns (delivered: seq<bytes>)
    modifies sock
    ensures delivered == Deliver(old(sock.inbox), loads)
  {
    hide Subscriber;
    delivered := [];
    var left := loads;
    while left > 0
      invariant delivered + Deliver(sock.inbox, left) == Deliver(old(sock.inbox), loads)
    {
      var ok, payload := ReadFrame(sock);
      if !ok {
        break;
      }
      if payload != [] {
        delivered := delivered + [payload];
      }
      left := left - 1;
    }
  }

  predicate Sendable(payloads: seq<bytes>) {
    forall p :: p in payloads ==> |p| < MAX_SIZE
  }

  predicate MaskKeys(masks: seq<bytes>) {
    forall m :: m in masks ==> |m| == 4
  }

  /** The bytes of a client run: a text frame for each payload, then a Close frame. */
  function Conversation(masks: seq<bytes>, payloads: seq<bytes>): bytes
    requires MaskKeys(masks) && |masks| == |payloads| + 1 && Sendable(payloads)
  {
    if payloads == [] then CloseFrame(masks[0])
    else TextFrame(masks[0], payloads[0]) + Conversation(masks[1..], payloads[1..])
  }

  function NonEmpty(payloads: seq<bytes>): seq<bytes> {
    if payloads == [] then []
    else (if payloads[0] == [] then [] else [payloads[0]]) + NonEmpty(payloads[1..])
  }

  /** Nothing is lost, invented, merged or reordered, whatever the masks and whatever follows the Close frame. */
  lemma {:induction false} ConversationRoundTrip(masks: seq<bytes>, payloads: seq<bytes>, after: bytes, loads: nat)
    requires MaskKeys(masks) && |masks| == |payloads| + 1 && Sendable(payloads)
    ensures Deliver(Conversation(masks, payloads) + after, loads) == NonEmpty(Take(payloads, loads))
    decreases |payloads|
  {
    hide Subscriber, Wire, Take;
    var s := Conversation(masks, payloads) + after;
    TakeRest(payloads, loads);
    if loads > 0 && payloads == [] {
      SubscriberReadsWire(CLOSING, Some(masks[0]), Short, NORMAL_CLOSURE, after);
    } else if loads > 0 {
      var p := payloads[0];
      var rest := Conversation(masks[1..], payloads[1..]) + after;
      assert s == TextFrame(masks[0], p) + rest;
      SubscriberReadsWire(TEXT, Some(masks[0]), ShortestForm(|p|), p, rest);
      ConversationRoundTrip(masks[1..], payloads[1..], after, loads - 1);
    }
  }

  lemma TakeRest(payloads: seq<bytes>, loads: nat)
    ensures payloads == [] || loads == 0 ==> Take(payloads, loads) == []
    ensures payloads != [] && loads > 0 ==> Take(payloads, loads) == [payloads[0]] + Take(payloads[1..], loads - 1)
  {
  }

  /** A header that has arrived is read the same from any longer stream. */
  lemma HeadOfPrefix(s: bytes, n: nat)
    requires n <= |s| && ReadHead(s[..n]).Head?
    ensures ReadHead(s) == ReadHead(s[..n])
  {
    var t := s[..n];
    var code := (s[1] & 0x7F) as int;
    var m := 2 + ExtensionSize(code);
    assert s[2..m] == t[2..m];
    if s[1] & 0x80 != 0 { assert s[m..m + 4] == t[m..m + 4]; }
  }

  /** A cut stream makes the decoder stop, ignore a cut Pong, or do what it does on the whole stream. */
  lemma SubscriberOnPrefix(s: bytes, n: nat)
    requires n <= |s|
    ensures var cut := Subscriber(s[..n]);
            || cut.Stop?
            || cut == Continue([], [], [])
            || (var whole := Subscriber(s);
                && whole.Continue? && whole.payload == cut.payload
                && |whole.rest| >= |s| - n && cut.rest == whole.rest[..|whole.rest| - (|s| - n)])
  {
    var t := s[..n];
    var h := ReadHead(t);
    if h.Head? && h.opcode != CLOSE && |t| - h.size >= h.length {
      HeadOfPrefix(s, n);
      CutInTwo(s, n, h.size, h.length);
    }
  }

  lemma CutInTwo(s: bytes, n: nat, i: nat, k: nat)
    requires i + k <= n <= |s|
    ensures s[..n][i..][..k] == s[i..][..k] && |s[i..][k..]| >= |s| - n
    ensures s[..n][i..][k..] == s[i..][k..][..|s[i..][k..]| - (|s| - n)]
  {
    assert s[..n][i..][..k] == s[i..i + k] == s[i..][..k];
    assert s[i..][k..] == s[i + k..];
    assert s[..n][i..][k..] == s[i + k..n];
  }

  lemma DeliverNothing(loads: nat)
    ensures Deliver([], loads) == []
  {
  }

  /** However early the connection breaks, what was delivered is a prefix of what would have been. */
  lemma {:induction false} DeliverOnPrefix(s: bytes, n: nat, loads: nat)
    requires n <= |s|
    ensures Deliver(s[..n], loads) <= Deliver(s, loads)
    decreases loads
  {
    hide Subscriber;
    SubscriberOnPrefix(s, n);
    var cut, whole := Subscriber(s[..n]), Subscriber(s);
    if loads > 0 && cut.Continue? {
      if cut == Continue([], [], []) {
        DeliverNothing(loads - 1);
      } else {
        DeliverOnPrefix(whole.rest, |whole.rest| - (|s| - n), loads - 1);
      }
    }
  }

  function MaskSequence(state: bv32, n: nat): (masks: seq<bytes>)
    ensures |masks| == n && MaskKeys(masks)
    decreases n
  {
    if n == 0 then [] else [Be32(XorShift(state))] + MaskSequence(XorShift(state), n - 1)
  }

  /** What the client still has to say from payload i on. */
  function Remaining(state: bv32, payloads: seq<bytes>, i: nat): bytes
    requires Sendable(payloads) && i <= |payloads|
  {
    Conversation(MaskSequence(state, |payloads| - i + 1), payloads[i..])
  }

  lemma RemainingStep(state: bv32, payloads: seq<bytes>, i: nat)
    requires Sendable(payloads) && i < |payloads|
    ensures Remaining(state, payloads, i)
         == TextFrame(Be32(XorShift(state)), payloads[i]) + Remaining(XorShift(state), payloads, i + 1)
  {
    hide Wire, XorShift, Be32;
    assert payloads[i..][1..] == payloads[i + 1..];
    assert MaskSequence(state, |payloads| - i + 1)[1..] == MaskSequence(XorShift(state), |payloads| - i);
  }

  lemma RemainingEnd(state: bv32, payloads: seq<bytes>)
    requires Sendable(payloads)
    ensures Remaining(state, payloads, |payloads|) == CloseFrame(Be32(XorShift(state)))
  {
    hide Wire, XorShift, Be32;
  }

  lemma TakePast<T>(sent: seq<T>, next: seq<T>, tail: seq<T>, room: nat)
    ensures room <= |next| || tail == [] ==> sent + Take(next, room) == Take(sent + (next + tail), |sent| + room)
  {
  }

  /** The client's main loop: send each payload, give up at the first failure, then close. */
  method SendAll(client: Client, payloads: seq<bytes>)
    requires Sendable(payloads)
    modifies client`rngState, client.sock
    ensures client.sock.outbox
         == old(client.sock.outbox) + Take(Remaining(old(client.rngState), payloads, 0), old(client.sock.room))
  {
    hide Remaining, Take, TextFrame, CloseFrame, XorShift, Be32;
    var sock := client.sock;
    ghost var all := Remaining(client.rngState, payloads, 0);
    ghost var sent: bytes := [];
    var i := 0;
    while i < |payloads|
      invariant i <= |payloads|
      invariant sock.outbox == old(sock.outbox) + sent && |sent| + sock.room == old(sock.room)
      invariant sent + Remaining(client.rngState, payloads, i) == all
    {
      RemainingStep(client.rngState, payloads, i);
      ghost var room := sock.room;
      var ok := client.SendText(payloads[i]);
      ghost var frame := TextFrame(Be32(client.rngState), payloads[i]);
      ghost var tail := Remaining(client.rngState, payloads, i + 1);
      assert sent + (frame + tail) == all;
      TakePast(sent, frame, tail, room);
      if !ok {
        TakeNothing(CloseFrame(Be32(XorShift(client.rngState))));
        client.Close();
        return;
      }
      assert sent + frame + tail == all;
      TakeAll(frame, room);
      sent := sent + frame;
      i := i + 1;
    }
    RemainingEnd(client.rngState, payloads);
    TakePast(sent, Remaining(client.rngState, payloads, i), [], sock.room);
    assert Remaining(client.rngState, payloads, i) + [] == Remaining(client.rngState, payloads, i);
    client.Close();
  }

  /** Client, wire and server together, over a connection that may break after room bytes. */
  method Exchange(payloads: seq<bytes>, seed: bv32, room: nat, loads: nat) returns (delivered: seq<bytes>)
    requires Sendable(payloads)
    ensures delivered <= NonEmpty(payloads)
    ensures room >= |Remaining(seed, payloads, 0)| && loads >= |payloads| ==> delivered == NonEmpty(payloads)
  {
    hide Subscriber, Wire, XorShift, Be32;
    var near := new Socket([], room);
    var client := new Client(near, seed);
    SendAll(client, payloads);
    var far := new Socket(near.outbox, room);
    delivered := ServeFrames(far, loads);
    ghost var all := Remaining(seed, payloads, 0);
    assert payloads[0..] == payloads && all + [] == all;
    assert near.outbox == all[..Min(room, |all|)];
    assert all[..|all|] == all && payloads[..|payloads|] == payloads;
    DeliverOnPrefix(all, Min(room, |all|), loads);
    ConversationRoundTrip(MaskSequence(seed, |payloads| + 1), payloads, [], loads);
    NonEmptyOfTake(payloads, loads);
    assert delivered <= NonEmpty(Take(payloads, loads));
  }

  lemma NonEmptyOfTake(payloads: seq<bytes>, n: nat)
    ensures NonEmpty(Take(payloads, n)) <= NonEmpty(payloads)
    decreases payloads
  {
    if payloads != [] && n > 0 {
      NonEmptyOfTake(payloads[1..], n - 1);
      assert Take(payloads, n)[1..] == Take(payloads[1..], n - 1);
    }
  }
}
