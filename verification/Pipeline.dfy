/** From the client's packets to the rows of the file: the wiring of client/src/main.c and server/src/main.cpp. */
module Pipeline {
  import opened Bytes
  import Csv
  import F = Formatter
  import Handshake
  import opened Packets
  import P = StorageProtocol
  import Server
  import opened Sockets
  import Storage
  import Stream
  import opened Text
  import Validator

  lemma JsonIsBytes(p: Packet)
    ensures ByteText(ToJson(p)) && ToJson(p) != ""
  {
    DecimalRoundTrip(p.timestamp);
    DecimalRoundTrip(p.sequence);
    Validator.NoQuoteInFixed6(p.accX);
    Validator.NoQuoteInFixed6(p.accY);
    Validator.NoQuoteInFixed6(p.accZ);
    hide Decimal, Fixed6;
  }

  /** What the client sends for its packets. */
  function Payloads(ps: seq<Packet>): (r: seq<bytes>)
    ensures |r| == |ps|
  {
    if ps == [] then [] else [ToBytes(ToJson(ps[0]))] + Payloads(ps[1..])
  }

  /** The packets the server's callback pushes: those of the payloads that parse() accepts. */
  function Received(payloads: seq<bytes>, cfg: Validator.Config, now: nat): seq<Packet> {
    if payloads == [] then [] else
      var text := ToText(payloads[0]);
      var result := Server.Parsed(text, cfg, now, 0);
      (if result.Ok? then [result.packet] else []) + Received(payloads[1..], cfg, now)
  }

  predicate Good(p: Packet, cfg: Validator.Config) {
    Validator.Printable(p) && p.timestamp != 0 && Validator.InRange(Validator.Kept(p), cfg.maxAcc)
  }

  function KeptAll(ps: seq<Packet>): (r: seq<Packet>)
    ensures |r| == |ps|
  {
    if ps == [] then [] else [Validator.Kept(ps[0])] + KeptAll(ps[1..])
  }

  lemma {:induction false} PayloadsAreReceived(ps: seq<Packet>, cfg: Validator.Config, now: nat)
    requires forall p :: p in ps ==> Good(p, cfg)
    ensures Received(Payloads(ps), cfg, now) == KeptAll(ps)
  {
    hide ToJson, ToBytes, ToText, Validator.ParseNative, Validator.ParseAndroid, Validator.LooksAndroid, Validator.Kept, Validator.Printable;
    if ps != [] {
      var p := ps[0];
      assert p in ps;
      JsonIsBytes(p);
      BytesRoundTrip(ToJson(p));
      Validator.PrintedIsNative(p);
      Validator.PrintParse(p, cfg, now);
      PayloadsAreReceived(ps[1..], cfg, now);
    }
  }

  lemma {:induction false} PayloadsNotEmpty(ps: seq<Packet>)
    requires forall p :: p in ps ==> |ToJson(p)| < 256
    ensures Stream.Sendable(Payloads(ps)) && Stream.NonEmpty(Payloads(ps)) == Payloads(ps)
  {
    hide ToJson;
    if ps != [] {
      JsonIsBytes(ps[0]);
      assert ps[0] in ps;
      PayloadsNotEmpty(ps[1..]);
    }
  }

  /** The packets that a run of the storage threads was given. */
  function Pushed<T>(steps: seq<P.Step<T>>): seq<T> {
    if steps == [] then [] else Offered(steps[0]) + Pushed(steps[1..])
  }

  function Refused<T>(s: P.State<T>): nat {
    s.dropped + s.uncounted
  }

  function Offered<T>(step: P.Step<T>): seq<T> {
    if step.Push? then [step.p] else []
  }

  /** a is b with some elements left out. */
  predicate Subsequence<T(==)>(a: seq<T>, b: seq<T>) {
    a == [] || (b != [] && ((a[0] == b[0] && Subsequence(a[1..], b[1..])) || Subsequence(a, b[1..])))
  }

  lemma {:induction false} SubsequenceWhole<T>(a: seq<T>, b: seq<T>)
    requires Subsequence(a, b)
    ensures |a| <= |b| && (|a| == |b| ==> a == b)
  {
    if a != [] {
      if a[0] == b[0] && Subsequence(a[1..], b[1..]) {
        SubsequenceWhole(a[1..], b[1..]);
      } else {
        SubsequenceWhole(a, b[1..]);
      }
    }
  }

  lemma AcceptedStep<T>(s: P.State<T>, step: P.Step<T>) returns (late: seq<T>)
    requires P.Enabled(s, step)
    ensures var t := P.Apply(s, step);
            && t.accepted == s.accepted + late && Refused(t) + |late| == Refused(s) + |Offered(step)|
            && (late == [] || late == Offered(step))
  {
    late := if step.Push? && |s.ring| < s.capacity then [step.p] else [];
    assert s.accepted + [] == s.accepted;
  }

  /** What a run accepts are the pushed packets in order, without the refused ones, which are counted. */
  lemma {:induction false} AcceptedIsPart<T>(s: P.State<T>, steps: seq<P.Step<T>>) returns (late: seq<T>)
    requires P.Legal(s, steps)
    ensures var t := P.After(s, steps);
            && t.accepted == s.accepted + late && Refused(t) + |late| == Refused(s) + |Pushed(steps)|
            && Subsequence(late, Pushed(steps))
    decreases |steps|
  {
    hide P.Apply, P.Enabled, Refused;
    if steps == [] {
      late := [];
    } else {
      var first := AcceptedStep(s, steps[0]);
      var more := AcceptedIsPart(P.Apply(s, steps[0]), steps[1..]);
      late := first + more;
      assert s.accepted + first + more == s.accepted + late;
      SubsequenceAfter(first, Offered(steps[0]), more, Pushed(steps[1..]));
    }
  }

  lemma SubsequenceAfter<T>(first: seq<T>, offered: seq<T>, more: seq<T>, rest: seq<T>)
    requires |offered| <= 1 && (first == [] || first == offered) && Subsequence(more, rest)
    ensures Subsequence(first + more, offered + rest)
  {
    if offered == [] {
      assert first + more == more && offered + rest == rest;
    } else {
      assert (offered + rest)[1..] == rest;
      if first == [] { assert first + more == more; } else { assert (first + more)[1..] == more; }
    }
  }

  // Such runs exist: a stream no longer than the buffer is never refused.

  /** A run that ends with stop() done, in the order of main, nothing refused and every write good. */
  ghost predicate Clean<T>(s: P.State<T>, steps: seq<P.Step<T>>) {
    && P.Legal(s, steps) && P.StopsAfterJoin(s, steps)
    && var t := P.After(s, steps);
    && t.stopper.Stopped? && Refused(t) == 0 && forall e :: e in t.log ==> e.ok
  }

  lemma CleanCons<T>(s: P.State<T>, step: P.Step<T>, rest: seq<P.Step<T>>) returns (steps: seq<P.Step<T>>)
    requires P.Enabled(s, step) && (step.SBegin? ==> s.producersJoined) && Clean(P.Apply(s, step), rest)
    ensures Clean(s, steps) && Pushed(steps) == Offered(step) + Pushed(rest)
  {
    hide P.Apply, P.Enabled, Refused;
    steps := [step] + rest;
    assert steps[1..] == rest;
  }

  /** The state after pushes alone. */
  function Filled<T>(capacity: nat, r: seq<T>): P.State<T> {
    P.Init(capacity).(ring := r, accepted := r, pushes := |r|)
  }

  lemma ShutdownRun<T>(capacity: nat, r: seq<T>) returns (steps: seq<P.Step<T>>)
    ensures Clean(Filled(capacity, r), steps) && Pushed(steps) == []
  {
    hide Clean, Pushed;
    var s0 := Filled(capacity, r);
    var s1 := s0.(producersJoined := true);
    var s2 := s1.(running := false, stopper := P.StopLocking);
    steps := WriterLeaves(s2);
    steps := CleanCons(s1, P.SBegin, steps);
    steps := CleanCons(s0, P.JoinProducers, steps);
  }

  lemma WriterLeaves<T>(s2: P.State<T>) returns (steps: seq<P.Step<T>>)
    requires s2.stopper.StopLocking? && s2.writer.Testing? && !s2.running && s2.mutex.Free?
    requires Refused(s2) == 0 && s2.log == []
    ensures Clean(s2, steps) && Pushed(steps) == []
  {
    hide Clean, Pushed, Refused;
    var s3 := s2.(writer := P.Exited);
    var s4 := s3.(mutex := P.ByStopper, stopper := P.Notifying);
    assert Refused(s4) == Refused(s2) by { SameRefused(s4, s2); }
    steps := Notified(s4);
    steps := CleanCons(s3, P.SLock, steps);
    steps := CleanCons(s2, P.WTest, steps);
  }

  lemma SameRefused<T>(s: P.State<T>, t: P.State<T>)
    requires s.dropped == t.dropped && s.uncounted == t.uncounted
    ensures Refused(s) == Refused(t)
  {
  }

  lemma Notified<T>(s4: P.State<T>) returns (steps: seq<P.Step<T>>)
    requires s4.stopper.Notifying? && s4.writer.Exited? && Refused(s4) == 0 && s4.log == []
    ensures Clean(s4, steps) && Pushed(steps) == []
  {
    hide Clean, Pushed, Refused;
    var s5 := s4.(stopper := P.StopUnlocking);
    var s6 := s5.(stopper := P.Joining, mutex := P.Free);
    var s7 := s6.(stopper := P.FinalDraining);
    SameRefused(s7, s4);
    steps := FinalFlush(s7);
    steps := CleanCons(s6, P.SJoin, steps);
    steps := CleanCons(s5, P.SUnlock, steps);
    steps := CleanCons(s4, P.SNotify, steps);
  }

  lemma FinalFlush<T>(s: P.State<T>) returns (steps: seq<P.Step<T>>)
    requires s.stopper.FinalDraining? && Refused(s) == 0 && s.log == []
    ensures Clean(s, steps) && Pushed(steps) == []
  {
    hide Clean, Pushed;
    var t := P.Apply(s, P.SDrain);
    if s.ring == [] {
      steps := CleanEnd(t);
    } else {
      steps := CleanEnd(P.Apply(t, P.SWrite(true)));
      steps := CleanCons(t, P.SWrite(true), steps);
    }
    steps := CleanCons(s, P.SDrain, steps);
  }

  lemma CleanEnd<T>(s: P.State<T>) returns (steps: seq<P.Step<T>>)
    requires s.stopper.Stopped? && Refused(s) == 0 && forall e :: e in s.log ==> e.ok
    ensures Clean(s, steps) && Pushed(steps) == []
  {
    steps := [];
  }

  /** Whatever is pushed, up to the capacity, can be stored and flushed without a loss. */
  lemma {:induction false} CleanRun<T>(capacity: nat, r: seq<T>, ps: seq<T>) returns (steps: seq<P.Step<T>>)
    requires |r| + |ps| <= capacity
    ensures Clean(Filled(capacity, r), steps) && Pushed(steps) == ps
    decreases ps
  {
    hide Clean, Pushed;
    if ps == [] {
      steps := ShutdownRun(capacity, r);
    } else {
      steps := CleanRun(capacity, r + [ps[0]], ps[1..]);
      assert P.Apply(Filled(capacity, r), P.Push(ps[0])) == Filled(capacity, r + [ps[0]]);
      steps := CleanCons(Filled(capacity, r), P.Push(ps[0]), steps);
    }
  }

  // One connection.

  /** What the callback gets of everything that arrives on a connection: the messages after a good handshake. */
  function Served(wire: bytes, loads: nat): seq<bytes> {
    if Handshake.ServerReply(ToText(wire)).None? then []
    else Stream.Deliver(ToBytes(Handshake.ServerRest(ToText(wire))), loads)
  }

  /** One round of run(): the handshake, then the frame loop on what the handshake left unread. */
  method ServeConnection(wire: bytes, room: nat, loads: nat) returns (accepted: bool, delivered: seq<bytes>)
    ensures accepted <==> var reply := Handshake.ServerReply(ToText(wire)); reply.Some? && |reply.value| <= room
    ensures delivered == if accepted then Served(wire, loads) else []
  {
    var text := new Socket<char>(ToText(wire), room);
    accepted := Handshake.DoHandshake(text);
    if !accepted {
      return false, [];
    }
    var sock := new Socket<byte>(ToBytes(text.inbox), text.room);
    delivered := Stream.ServeFrames(sock, loads);
  }

  lemma RequestThenFrames(q: Handshake.Params, frames: bytes, loads: nat)
    requires Handshake.Sendable(q) && ByteText(q.host) && ByteText(q.path)
    ensures var wire := ToBytes(Handshake.Request(q)) + frames;
            && Handshake.ServerReply(ToText(wire)) == Some(Handshake.Response(Handshake.AcceptKey(Handshake.KeyOf(q))))
            && Served(wire, loads) == Stream.Deliver(frames, loads)
  {
    hide Handshake.Request, Handshake.AcceptKey, Handshake.KeyOf, Handshake.Response, Handshake.ServerReply, Handshake.ServerRest, Stream.Deliver;
    var request := Handshake.Request(q);
    Handshake.RequestIsBytes(q);
    BytesRoundTrip(request);
    BytesBack(frames);
    assert ToText(ToBytes(request) + frames) == request + ToText(frames);
    Handshake.ServerAcceptsClient(q, ToText(frames));
  }

  /** However early the connection breaks, the callback gets a beginning of what it would have got. */
  lemma ServedOnPrefix(wire: bytes, n: nat, loads: nat)
    requires n <= |wire|
    ensures Served(wire[..n], loads) <= Served(wire, loads)
  {
    hide Handshake.ServerReply, Handshake.ServerRest, Stream.Deliver;
    var text := ToText(wire);
    assert ToText(wire[..n]) == text[..n];
    Handshake.RestOfPrefix(text, n);
    var cut, whole := ToBytes(Handshake.ServerRest(text[..n])), ToBytes(Handshake.ServerRest(text));
    if cut == [] {
      Stream.DeliverNothing(loads);
    } else {
      assert cut == whole[..|cut|];
      Stream.DeliverOnPrefix(whole, |cut|, loads);
    }
  }

  lemma {:induction false} ReceivedOnPrefix(a: seq<bytes>, b: seq<bytes>, cfg: Validator.Config, now: nat)
    requires a <= b
    ensures Received(a, cfg, now) <= Received(b, cfg, now)
  {
    hide Server.Parsed;
    if a != [] { ReceivedOnPrefix(a[1..], b[1..], cfg, now); }
  }

  lemma {:induction false} SubsequenceOfPrefix<T>(a: seq<T>, b: seq<T>, c: seq<T>)
    requires Subsequence(a, b) && b <= c
    ensures Subsequence(a, c)
    decreases |b|
  {
    if a != [] {
      if a[0] == b[0] && Subsequence(a[1..], b[1..]) {
        SubsequenceOfPrefix(a[1..], b[1..], c[1..]);
      } else {
        SubsequenceOfPrefix(a, b[1..], c[1..]);
      }
    }
  }

  /** What a connection carries: the request, one frame for each packet, the Close frame, and whatever follows. */
  function Wire(q: Handshake.Params, masks: seq<bytes>, ps: seq<Packet>, after: bytes): bytes
    requires |q.nonce| == 16
    requires Stream.MaskKeys(masks) && |masks| == |ps| + 1 && Stream.Sendable(Payloads(ps))
  {
    ToBytes(Handshake.Request(q)) + (Stream.Conversation(masks, Payloads(ps)) + after)
  }

  /**
   * End to end, from the first byte of the connection to the last row of the file. The connection
   * carries n bytes of what the client has to send. The server answers a whole request with a response
   * the client accepts, and gets the first packets, all of them on a whole connection. When every
   * formatter call returned true, the file gains one row for each of these packets that was not
   * refused, with six decimals kept, in the order of measurement, if and only if all streams were
   * flushed; the missing packets are the dropped ones. This holds for every mask sequence, every
   * interleaving of the storage threads and whatever the file held before.
   */
  lemma EndToEnd(q: Handshake.Params, ps: seq<Packet>, masks: seq<bytes>, after: bytes, n: nat, loads: nat,
                 cfg: Validator.Config, now: nat, capacity: nat, steps: seq<P.Step<Packet>>,
                 header: F.Stream, disks: seq<F.Disk>, files: Csv.Files, path: string, sep: string) returns (stored: seq<Packet>)
    requires Handshake.Sendable(q) && ByteText(q.host) && ByteText(q.path)
    requires forall p :: p in ps ==> Good(p, cfg) && |ToJson(p)| < 256
    requires Stream.MaskKeys(masks) && |masks| == |ps| + 1 && loads >= |ps| && Stream.Sendable(Payloads(ps))
    requires n <= |Wire(q, masks, ps, after)|
    requires P.Legal(P.Init(capacity), steps) && P.StopsAfterJoin(P.Init(capacity), steps)
    requires Pushed(steps) == Received(Served(Wire(q, masks, ps, after)[..n], loads), cfg, now)
    requires var s := P.After(P.Init(capacity), steps); s.stopper.Stopped? && forall e :: e in s.log ==> e.ok
    requires |disks| == |P.After(P.Init(capacity), steps).log|
    requires Storage.Recorded(files, P.After(P.Init(capacity), steps).log, header, disks, path, sep)
    requires F.HeaderReturns(Csv.State(files, {}), path, header, sep)
    ensures n >= |Handshake.Request(q)| ==>
              var reply := Handshake.ServerReply(ToText(Wire(q, masks, ps, after)[..n]));
              reply.Some? && Handshake.ClientCheck(reply.value, Handshake.AcceptKey(Handshake.KeyOf(q))) == Handshake.HsOk
    ensures var s := P.After(P.Init(capacity), steps);
            && Pushed(steps) <= KeptAll(ps) && (n == |Wire(q, masks, ps, after)| ==> Pushed(steps) == KeptAll(ps))
            && Subsequence(stored, KeptAll(ps)) && |stored| + s.dropped == |Pushed(steps)|
            && (s.dropped == 0 ==> stored == Pushed(steps))
    ensures var s := P.After(P.Init(capacity), steps);
            var end := F.RunOn(Csv.State(files, {}), Storage.Calls(s.log, header, disks, path), sep);
            && path in end.files
            && (end.files[path] == Csv.Fresh(files, path, sep) + Csv.Rows(stored, sep)
                <==> Storage.AllFlushed(files, s.log, header, disks, path, sep))
  {
    WhatTheServerGets(q, ps, masks, after, n, loads, cfg, now);
    hide P.Legal, P.After, P.StopsAfterJoin, F.RunOn, F.HeaderReturns, Csv.Rows, Csv.Fresh, Payloads, Pushed, Wire;
    hide Received, ToJson, Good, Served, Handshake.Request, Handshake.AcceptKey, Handshake.KeyOf, Handshake.ServerReply, Handshake.ClientCheck;
    hide Storage.Recorded, Storage.AllFlushed;
    Storage.WholeRun(capacity, steps, header, disks, files, path, sep);
    P.NothingLeftBehind(capacity, steps);
    stored := AcceptedIsPart(P.Init(capacity), steps);
    assert [] + stored == stored;
    SubsequenceWhole(stored, Pushed(steps));
    SubsequenceOfPrefix(stored, Pushed(steps), KeptAll(ps));
  }

  lemma WhatTheServerGets(q: Handshake.Params, ps: seq<Packet>, masks: seq<bytes>, after: bytes, n: nat, loads: nat,
                          cfg: Validator.Config, now: nat)
    requires Handshake.Sendable(q) && ByteText(q.host) && ByteText(q.path)
    requires forall p :: p in ps ==> Good(p, cfg) && |ToJson(p)| < 256
    requires Stream.MaskKeys(masks) && |masks| == |ps| + 1 && loads >= |ps| && Stream.Sendable(Payloads(ps))
    requires n <= |Wire(q, masks, ps, after)|
    ensures var got := Received(Served(Wire(q, masks, ps, after)[..n], loads), cfg, now);
            got <= KeptAll(ps) && (n == |Wire(q, masks, ps, after)| ==> got == KeptAll(ps))
    ensures n >= |Handshake.Request(q)| ==>
              var reply := Handshake.ServerReply(ToText(Wire(q, masks, ps, after)[..n]));
              reply.Some? && Handshake.ClientCheck(reply.value, Handshake.AcceptKey(Handshake.KeyOf(q))) == Handshake.HsOk
  {
    hide Received, ToJson, Good, Served, Payloads, Stream.Conversation, Stream.Deliver;
    hide Handshake.Request, Handshake.AcceptKey, Handshake.KeyOf, Handshake.ServerReply, Handshake.ClientCheck, Handshake.Response;
    var wire := Wire(q, masks, ps, after);
    var frames := Stream.Conversation(masks, Payloads(ps)) + after;
    RequestThenFrames(q, frames, loads);
    WhatArrives(ps, masks, after, loads, cfg, now);
    ServedOnPrefix(wire, n, loads);
    ReceivedOnPrefix(Served(wire[..n], loads), Served(wire, loads), cfg, now);
    assert wire[..|wire|] == wire;
    if n >= |Handshake.Request(q)| { ClientIsAnswered(q, frames, n); }
  }

  lemma ClientIsAnswered(q: Handshake.Params, frames: bytes, n: nat)
    requires Handshake.Sendable(q) && ByteText(q.host) && ByteText(q.path)
    requires |Handshake.Request(q)| <= n <= |ToBytes(Handshake.Request(q)) + frames|
    ensures var reply := Handshake.ServerReply(ToText((ToBytes(Handshake.Request(q)) + frames)[..n]));
            reply.Some? && Handshake.ClientCheck(reply.value, Handshake.AcceptKey(Handshake.KeyOf(q))) == Handshake.HsOk
  {
    hide Handshake.Request, Handshake.AcceptKey, Handshake.KeyOf, Handshake.ServerReply, Handshake.ClientCheck, Handshake.Response;
    var request := ToBytes(Handshake.Request(q));
    assert (request + frames)[..n] == request + frames[..n - |request|];
    RequestThenFrames(q, frames[..n - |request|], 0);
    var key := Handshake.AcceptKey(Handshake.KeyOf(q));
    Handshake.HandshakeAgrees(q, "", "");
    Handshake.ServerAcceptsClient(q, "");
    assert Handshake.Response(key) + "" == Handshake.Response(key);
  }

  lemma WhatArrives(ps: seq<Packet>, masks: seq<bytes>, after: bytes, loads: nat, cfg: Validator.Config, now: nat)
    requires forall p :: p in ps ==> Good(p, cfg) && |ToJson(p)| < 256
    requires Stream.MaskKeys(masks) && |masks| == |ps| + 1 && loads >= |ps| && Stream.Sendable(Payloads(ps))
    ensures Received(Stream.Deliver(Stream.Conversation(masks, Payloads(ps)) + after, loads), cfg, now) == KeptAll(ps)
  {
    hide Stream.Deliver, Stream.Conversation, Received, ToJson, Good;
    var payloads := Payloads(ps);
    PayloadsNotEmpty(ps);
    Stream.ConversationRoundTrip(masks, payloads, after, loads);
    TakeAll(payloads, loads);
    PayloadsAreReceived(ps, cfg, now);
  }
}
